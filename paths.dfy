/** The POSIX path helpers the server calls: `os.path.join`,
    `os.path.splitext` and `glob.glob` with a `*<suffix>` pattern over one
    directory. The file system is not modelled: a directory listing is given
    as a sequence of entry names in the order the operating system reports
    them. */
module Paths {
  import opened Errors
  import Text

  /** `os.path.join(a, b)`: an absolute `b` replaces `a`; otherwise one
      separator goes between them unless `a` is empty or already ends in one. */
  function Join(a: string, b: string): (r: string)
    ensures Text.StartsWith(b, "/") ==> r == b
    ensures !Text.StartsWith(b, "/") ==> Text.EndsWith(r, b) && Text.StartsWith(r, a)
    ensures !Text.StartsWith(b, "/") && a != [] && a[|a| - 1] != '/' ==> r == a + "/" + b
  {
    if Text.StartsWith(b, "/") then b
    else if a == [] || a[|a| - 1] == '/' then a + b
    else a + "/" + b
  }

  /** Joining onto a non-empty path that does not end in a separator a
      relative path puts exactly one separator between them. */
  lemma JoinRelative(a: string, b: string)
    requires a != [] && a[|a| - 1] != '/'
    requires b == [] || b[0] != '/'
    ensures Join(a, b) == a + "/" + b
  {
    if |b| >= 1 {
      assert b[..1][0] == b[0];
    }
  }

  /** `os.path.splitext(p)`: the last `.` of the last path component starts
      the extension, unless everything before it in that component is dots
      (so `.bashrc` has no extension). Returns the root and the extension. */
  function SplitExt(p: string): (r: (string, string))
    ensures r.0 + r.1 == p
    ensures r.1 == [] || (r.1[0] == '.' && forall k :: 1 <= k < |r.1| ==> r.1[k] != '.' && r.1[k] != '/')
  {
    var sepIndex := Text.LastIndexOf(p, '/');
    var dotIndex := Text.LastIndexOf(p, '.');
    if dotIndex > sepIndex && exists k | sepIndex < k < dotIndex :: p[k] != '.' then
      assert p[..dotIndex] + p[dotIndex..] == p;
      (p[..dotIndex], p[dotIndex..])
    else (p, "")
  }

  /** A file name `stem + ext` whose extension is a dot followed by neither
      dots nor separators, and whose stem has no separator and is not all
      dots, splits back into exactly that stem and extension. */
  lemma SplitExtOf(stem: string, ext: string)
    requires forall k :: 0 <= k < |stem| ==> stem[k] != '/'
    requires exists k :: 0 <= k < |stem| && stem[k] != '.'
    requires |ext| >= 1 && ext[0] == '.'
    requires forall k :: 1 <= k < |ext| ==> ext[k] != '.' && ext[k] != '/'
    ensures SplitExt(stem + ext) == (stem, ext)
  {
    var p := stem + ext;
    Text.LastIndexOfBeforeSuffix(stem + [ext[0]], ext[1..], '.');
    assert p == (stem + [ext[0]]) + ext[1..];
    var dotIndex := Text.LastIndexOf(p, '.');
    assert dotIndex == |stem|;
    var sepIndex := Text.LastIndexOf(p, '/');
    assert forall j :: 0 <= j < |p| ==> p[j] != '/';
    assert sepIndex == -1;
    var k :| 0 <= k < |stem| && stem[k] != '.';
    assert p[k] == stem[k];
    assert p[..dotIndex] == stem && p[dotIndex..] == ext;
  }

  // ---------------------------------------------------------------------------
  // glob.glob(os.path.join(dir, "*" + suffix))

  /** Names starting with a dot are hidden: a pattern starting with `*` never
      matches them. */
  predicate IsHidden(name: string) {
    |name| > 0 && name[0] == '.'
  }

  predicate Matches(name: string, suffix: string) {
    !IsHidden(name) && Text.EndsWith(name, suffix)
  }

  /** The paths `glob` returns for the pattern `*` + `suffix` inside `dir`,
      in listing order. */
  function Glob(dir: string, listing: seq<string>, suffix: string): (r: seq<string>)
    ensures |r| <= |listing|
  {
    if listing == [] then []
    else
      var rest := Glob(dir, listing[1..], suffix);
      if Matches(listing[0], suffix) then [Join(dir, listing[0])] + rest else rest
  }

  /** `glob` finds nothing exactly when no entry matches; otherwise its first
      path is that of the first matching entry. */
  lemma {:induction false} GlobFirst(dir: string, listing: seq<string>, suffix: string)
    ensures Glob(dir, listing, suffix) == [] <==>
      forall i :: 0 <= i < |listing| ==> !Matches(listing[i], suffix)
    ensures forall k ::
      (0 <= k < |listing| && Matches(listing[k], suffix) &&
       (forall j :: 0 <= j < k ==> !Matches(listing[j], suffix)))
      ==> Glob(dir, listing, suffix)[0] == Join(dir, listing[k])
  {
    if listing != [] {
      GlobFirst(dir, listing[1..], suffix);
      forall k | 0 < k < |listing| && Matches(listing[k], suffix) &&
        (forall j :: 0 <= j < k ==> !Matches(listing[j], suffix))
        ensures Glob(dir, listing, suffix)[0] == Join(dir, listing[k])
      {
        assert listing[1..][k - 1] == listing[k];
        assert forall j :: 0 <= j < k - 1 ==> listing[1..][j] == listing[j + 1];
      }
      if forall i :: 0 <= i < |listing[1..]| ==> !Matches(listing[1..][i], suffix) {
        assert forall i :: 1 <= i < |listing| ==> listing[i] == listing[1..][i - 1];
      }
    }
  }
}
