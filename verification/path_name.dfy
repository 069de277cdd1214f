/**
  The scope identifier of a source file: `path.basename(p, path.extname(p))`
  with Node's POSIX rules, i.e. the last path segment without its extension.
 */
module PathName {
  import opened Wrappers

  /** Index of the last occurrence of `c` in `s`. */
  function LastIndexOf(s: string, c: char): (r: Option<nat>)
    ensures r.None? <==> c !in s
    ensures r.Some? ==> r.value < |s| && s[r.value] == c && c !in s[r.value + 1..]
  {
    if s == [] then None
    else if s[|s| - 1] == c then Some(|s| - 1)
    else
      var r := LastIndexOf(s[..|s| - 1], c);
      assert s == s[..|s| - 1] + [s[|s| - 1]];
      if r.Some? then
        assert s[r.value + 1..] == s[..|s| - 1][r.value + 1..] + [s[|s| - 1]];
        r
      else
        r
  }

  function TrimTrailingSlashes(p: string): (r: string)
    ensures r <= p
    ensures r == [] || r[|r| - 1] != '/'
  {
    if |p| > 0 && p[|p| - 1] == '/' then TrimTrailingSlashes(p[..|p| - 1]) else p
  }

  /** `path.basename(p)`: the last segment, trailing separators ignored. */
  function BaseName(p: string): (r: string)
    ensures '/' !in r
  {
    var q := TrimTrailingSlashes(p);
    match LastIndexOf(q, '/')
    case None => q
    case Some(i) => q[i + 1..]
  }

  /** `path.extname` of a base name: from the last '.' to the end, except when
      that '.' is the first character (a dot file) or the name is "..". */
  function ExtName(base: string): (ext: string)
    ensures ext == [] || (ext[0] == '.' && '.' !in ext[1..])
    ensures |ext| < |base| || ext == []
    ensures ext == base[|base| - |ext|..]
    ensures ext == [] <==> base == [] || '.' !in base[1..] || base == ".."
  {
    match LastIndexOf(base, '.')
    case None => ""
    case Some(d) =>
      if d == 0 || base == ".." then
        assert d == 0 ==> base[1..] == base[d + 1..];
        ""
      else
        assert base[d..][1..] == base[d + 1..];
        assert base[1..][d - 1] == base[d];
        base[d..]
  }

  /** `path.basename(p, path.extname(p))`: the base name with its extension
      stripped; never empty unless the base name is. */
  function Scope(p: string): (r: string)
    ensures '/' !in r
    ensures r <= BaseName(p)
    ensures r == BaseName(p) || BaseName(p)[|r|..] == ExtName(BaseName(p))
    ensures r == [] ==> BaseName(p) == []
    ensures r + ExtName(BaseName(p)) == BaseName(p)
  {
    var base := BaseName(p);
    var ext := ExtName(base);
    StripSuffix(base, ext);
    base[..|base| - |ext|]
  }

  /** Cutting a suffix off a name leaves a prefix without new characters. */
  lemma StripSuffix(base: string, ext: string)
    requires |ext| <= |base| && ext == base[|base| - |ext|..]
    ensures var r := base[..|base| - |ext|];
      && (forall c :: c in r ==> c in base)
      && r <= base
      && base[|r|..] == ext
      && r + ext == base
  {
  }

  /** Every element after position `j` is in the suffix after `j`. */
  lemma InSuffix(s: string, j: nat)
    ensures forall k :: j < k < |s| ==> s[k] in s[j + 1..]
  {
    forall k | j < k < |s|
      ensures s[k] in s[j + 1..]
    {
      assert s[j + 1..][k - j - 1] == s[k];
    }
  }

  /** An occurrence of `c` with none after it is the last one. */
  lemma LastIndexOfAt(s: string, c: char, i: nat)
    requires i < |s| && s[i] == c && c !in s[i + 1..]
    ensures LastIndexOf(s, c) == Some(i)
  {
    assert c in s;
    var r := LastIndexOf(s, c);
    InSuffix(s, i);
    InSuffix(s, r.value);
  }

  /** The base name of `<dir>/<base>` is `<base>` when `base` holds no `/`
      and does not end in one. */
  lemma BaseNameOfJoin(dir: string, base: string)
    requires base != [] && '/' !in base
    ensures BaseName(dir + "/" + base) == base
  {
    var p := dir + "/" + base;
    assert p[|p| - 1] == base[|base| - 1];
    assert TrimTrailingSlashes(p) == p;
    assert p[|dir| + 1..] == base;
    LastIndexOfAt(p, '/', |dir|);
  }

  /** The extension of `<name>.<ext>` is `.<ext>` when `ext` holds no `.`
      and `name` is neither empty nor `.`; `name` may hold dots. */
  lemma ExtNameOfJoin(name: string, ext: string)
    requires name != [] && name != "." && '.' !in ext
    ensures ExtName(name + "." + ext) == "." + ext
  {
    var base := name + "." + ext;
    var d := |name|;
    assert base[d] == '.';
    assert base[d + 1..] == ext;
    LastIndexOfAt(base, '.', d);
    assert base != ".." by {
      assert |base| == 2 ==> name == [base[0]];
    }
    ExtNameAt(base, d);
    assert base[d..] == "." + ext;
  }

  /** Past the first character, the last `.` of a base name other than `..`
      starts its extension. */
  lemma ExtNameAt(base: string, d: nat)
    requires LastIndexOf(base, '.') == Some(d) && d != 0 && base != ".."
    ensures ExtName(base) == base[d..]
  {
  }

  /** A source file `<dir>/<name>.<ext>` has the scope `<name>`: exactly the
      last extension is removed, so `Button.stories.tsx` gives
      `Button.stories`. */
  lemma ScopeOfSourcePath(dir: string, name: string, ext: string)
    requires name != [] && name != "." && '/' !in name
    requires '.' !in ext && '/' !in ext
    ensures BaseName(dir + "/" + name + "." + ext) == name + "." + ext
    ensures ExtName(name + "." + ext) == "." + ext
    ensures Scope(dir + "/" + name + "." + ext) == name
  {
    var base := name + "." + ext;
    assert dir + "/" + name + "." + ext == dir + "/" + base;
    assert '/' !in base;
    BaseNameOfJoin(dir, base);
    ExtNameOfJoin(name, ext);
    assert base[..|base| - |"." + ext|] == name;
  }
}
