/** `infer_format_from_path`: the input format of an EnergyPlus model file,
    read off the suffix of its POSIX path, ignoring case. */
module Kernel {
  import opened Errors

  /** The two input formats the kernel reads: epJSON and IDF. */
  datatype InputFormat = Json | Idf

  /** The index of the last `c` in `s`, or `-1` when there is none. */
  function LastIndexOf(s: string, c: char): (r: int)
    ensures -1 <= r < |s|
    ensures r >= 0 ==> s[r] == c
    ensures forall j :: r < j < |s| ==> s[j] != c
  {
    if s == [] then -1
    else if s[|s| - 1] == c then |s| - 1
    else LastIndexOf(s[..|s| - 1], c)
  }

  /** Whether `s` holds no `c` at all. */
  predicate Free(s: string, c: char) {
    forall j :: 0 <= j < |s| ==> s[j] != c
  }

  /** Whether `r` stands at `i` in `p` as a whole component: between slashes
      or the ends of `p`. */
  predicate ComponentAt(p: string, i: nat, r: string) {
    i + |r| <= |p| && p[i..i + |r|] == r &&
    (i == 0 || p[i - 1] == '/') && (i + |r| == |p| || p[i + |r|] == '/')
  }

  /** `PurePosixPath(p).name`: the last component of `p` that is neither
      empty nor `.`, or the empty string when every component is. Repeated
      and trailing slashes and `.` components are dropped when the path is
      parsed, so they never make up the name. */
  function Name(p: string): (r: string)
    ensures Free(r, '/') && r != "."
    decreases |p|
  {
    var i := LastIndexOf(p, '/') + 1;
    var tail := p[i..];
    if tail != "" && tail != "." then tail
    else if i == 0 then ""
    else Name(p[..i - 1])
  }

  /** The name is a whole component of the path. */
  lemma {:induction false} NameIsComponent(p: string)
    ensures Name(p) != "" ==> exists i: nat :: ComponentAt(p, i, Name(p))
    decreases |p|
  {
    var i := LastIndexOf(p, '/') + 1;
    var tail := p[i..];
    if tail != "" && tail != "." {
      assert ComponentAt(p, i, tail);
    } else if i != 0 && Name(p) != "" {
      var q := p[..i - 1];
      NameIsComponent(q);
      var k: nat :| ComponentAt(q, k, Name(q));
      ComponentBeforeSlash(p, i - 1, k, Name(q));
    }
  }

  /** A component of the part before a slash is a component of the path. */
  lemma ComponentBeforeSlash(p: string, m: nat, k: nat, r: string)
    requires m < |p| && p[m] == '/' && ComponentAt(p[..m], k, r)
    ensures ComponentAt(p, k, r)
  {
    assert p[k..k + |r|] == p[..m][k..k + |r|];
  }

  /** `PurePath.suffix` of a name: from its last dot on, when that dot is
      neither the first nor the last character; otherwise empty. */
  function Suffix(name: string): (r: string)
    ensures r != "" ==>
      2 <= |r| < |name| && r == name[|name| - |r|..] && r[0] == '.' && Free(r[1..], '.')
  {
    var i := LastIndexOf(name, '.');
    if 0 < i < |name| - 1 then
      assert Free(name[i..][1..], '.') by {
        forall j | 0 <= j < |name[i..][1..]| ensures name[i..][1..][j] != '.' {
          assert name[i..][1..][j] == name[i + 1 + j];
        }
      }
      name[i..]
    else ""
  }

  /** An ASCII upper-case letter becomes its lower-case letter; any other
      character stays. */
  function LowerChar(c: char): (d: char)
    ensures 'A' <= c <= 'Z' ==> 'a' <= d <= 'z' && d as int - 'a' as int == c as int - 'A' as int
    ensures !('A' <= c <= 'Z') ==> d == c
  {
    if 'A' <= c <= 'Z' then (c as int + 32) as char else c
  }

  /** `str.lower()` on ASCII, character by character. */
  function Lower(s: string): (r: string)
    ensures |r| == |s| && forall i :: 0 <= i < |s| ==> r[i] == LowerChar(s[i])
  {
    seq(|s|, i requires 0 <= i < |s| => LowerChar(s[i]))
  }

  /** The format a lower-cased suffix names: `.json` and `.epjson` are
      epJSON, `.idf` is IDF, anything else is unknown. */
  function FormatOf(suffix: string): (r: Option<InputFormat>)
    ensures r == Some(Json) <==> suffix == ".json" || suffix == ".epjson"
    ensures r == Some(Idf) <==> suffix == ".idf"
  {
    if suffix == ".json" || suffix == ".epjson" then Some(Json)
    else if suffix == ".idf" then Some(Idf)
    else None
  }

  /** `infer_format_from_path(path)`: the format named by the lower-cased
      suffix of the path's name, `None` when there is no such suffix or it
      names no format. */
  function InferFormat(path: string): (r: Option<InputFormat>)
    ensures r.Some? ==> Suffix(Name(path)) != "" && Free(Suffix(Name(path)), '/')
  {
    FormatOf(Lower(Suffix(Name(path))))
  }

  // ----- Case does not matter -----

  /** Lower-casing moves no slash and no dot. */
  lemma LowerKeeps(s: string, c: char)
    requires c == '/' || c == '.'
    ensures forall i :: 0 <= i < |s| ==> (Lower(s)[i] == c <==> s[i] == c)
  {
  }

  /** Lower-casing commutes with slicing. */
  lemma LowerSlice(s: string, i: nat, j: nat)
    requires i <= j <= |s|
    ensures Lower(s[i..j]) == Lower(s)[i..j]
  {
  }

  /** The last slash or dot is found at the same place after lower-casing. */
  lemma LastIndexOfLower(s: string, c: char)
    requires c == '/' || c == '.'
    ensures LastIndexOf(Lower(s), c) == LastIndexOf(s, c)
  {
    LowerKeeps(s, c);
  }

  /** The name of a lower-cased path is the lower-cased name. */
  lemma {:induction false} NameLower(p: string)
    ensures Name(Lower(p)) == Lower(Name(p))
    decreases |p|
  {
    LastIndexOfLower(p, '/');
    var i := LastIndexOf(p, '/') + 1;
    LowerSlice(p, i, |p|);
    LowerOnlyDot(p[i..]);
    if !(p[i..] != "" && p[i..] != ".") && i != 0 {
      LowerSlice(p, 0, i - 1);
      assert Lower(p)[..i - 1] == Lower(p[..i - 1]);
      NameLower(p[..i - 1]);
    }
  }

  /** Only `.` lower-cases to `.`. */
  lemma LowerOnlyDot(s: string)
    ensures Lower(s) == "." <==> s == "."
  {
    if Lower(s) == "." { assert LowerChar(s[0]) == '.'; }
  }

  /** The suffix of a lower-cased name is the lower-cased suffix. */
  lemma SuffixLower(name: string)
    ensures Suffix(Lower(name)) == Lower(Suffix(name))
  {
    LastIndexOfLower(name, '.');
    var i := LastIndexOf(name, '.');
    if 0 < i < |name| - 1 {
      SuffixFrom(name, i);
      SuffixFrom(Lower(name), i);
      LowerSlice(name, i, |name|);
    } else {
      assert Lower("") == "";
    }
  }

  /** The suffix starts at the last dot when that dot is inside the name. */
  lemma SuffixFrom(name: string, i: nat)
    requires i == LastIndexOf(name, '.') && 0 < i < |name| - 1
    ensures Suffix(name) == name[i..]
  {
  }

  /** The suffix match ignores case: paths that agree once lower-cased are
      given the same format. */
  lemma InferIgnoresCase(p: string, q: string)
    requires Lower(p) == Lower(q)
    ensures InferFormat(p) == InferFormat(q)
  {
    LowerIdempotent(Suffix(Name(p)));
    LowerIdempotent(Suffix(Name(q)));
    NameLower(p); NameLower(q);
    SuffixLower(Name(p)); SuffixLower(Name(q));
    assert Lower(Suffix(Name(p))) == Suffix(Name(Lower(p)));
    assert Lower(Suffix(Name(q))) == Suffix(Name(Lower(q)));
  }

  /** Lower-casing twice is lower-casing once. */
  lemma LowerIdempotent(s: string)
    ensures Lower(Lower(s)) == Lower(s)
  {
  }

  // ----- Reading the suffix off a file name -----

  /** A file name under any directory is the path's name. */
  lemma NameOfFile(dir: string, file: string)
    requires dir == "" || dir[|dir| - 1] == '/'
    requires file != "" && file != "." && Free(file, '/')
    ensures Name(dir + file) == file
  {
    var p := dir + file;
    if dir != "" { assert p[|dir| - 1] == '/'; }
    forall j | |dir| <= j < |p| ensures p[j] != '/' { assert p[j] == file[j - |dir|]; }
    assert p[|dir|..] == file;
  }

  /** A stem followed by a one-dot extension has that extension as suffix. */
  lemma SuffixOfStem(stem: string, ext: string)
    requires stem != ""
    requires 2 <= |ext| && ext[0] == '.' && Free(ext[1..], '.')
    ensures Suffix(stem + ext) == ext
  {
    var n := stem + ext;
    assert n[|stem|] == '.';
    forall j | |stem| < j < |n| ensures n[j] != '.' { assert n[j] == ext[1..][j - |stem| - 1]; }
    assert n[|stem|..] == ext;
  }

  /** `dir/stem.ext` is given the format its extension names, in any case;
      an extension that names no format gives `None`. */
  lemma InferFromExtension(dir: string, stem: string, ext: string)
    requires dir == "" || dir[|dir| - 1] == '/'
    requires stem != "" && Free(stem, '/')
    requires 2 <= |ext| && ext[0] == '.' && Free(ext[1..], '.') && Free(ext, '/')
    ensures InferFormat(dir + stem + ext) == FormatOf(Lower(ext))
  {
    assert Free(stem + ext, '/') by {
      forall j | 0 <= j < |stem + ext| ensures (stem + ext)[j] != '/' {
        if j >= |stem| { assert (stem + ext)[j] == ext[j - |stem|]; }
      }
    }
    assert stem + ext != ".";
    assert dir + stem + ext == dir + (stem + ext);
    NameOfFile(dir, stem + ext);
    SuffixOfStem(stem, ext);
  }

  /** A dot file such as `.json` has no suffix, so no format. */
  lemma HiddenFileHasNoFormat(dir: string, ext: string)
    requires dir == "" || dir[|dir| - 1] == '/'
    requires 2 <= |ext| && ext[0] == '.' && Free(ext[1..], '.') && Free(ext, '/')
    ensures InferFormat(dir + ext) == None
  {
    assert ext != ".";
    NameOfFile(dir, ext);
    DotFileHasNoSuffix(ext);
    assert Lower("") == "";
  }

  /** A name whose only dot is its first character has no suffix. */
  lemma DotFileHasNoSuffix(name: string)
    requires 2 <= |name| && name[0] == '.' && Free(name[1..], '.')
    ensures Suffix(name) == ""
  {
    forall j | 0 < j < |name| ensures name[j] != '.' { assert name[j] == name[1..][j - 1]; }
    assert LastIndexOf(name, '.') == 0;
  }

  /** A name without a dot, or ending in one, has no suffix. */
  lemma NoSuffixWithoutInnerDot(name: string)
    requires Free(name, '.') || (name != [] && name[|name| - 1] == '.')
    ensures Suffix(name) == ""
  {
  }

  /** A trailing slash, or a trailing `.` component, names the same file. */
  lemma TrailingSlashIgnored(p: string)
    ensures InferFormat(p + "/") == InferFormat(p)
    ensures InferFormat(p + "/.") == InferFormat(p)
  {
    assert Name(p + "/") == Name(p) by {
      assert LastIndexOf(p + "/", '/') == |p|;
      assert (p + "/")[..|p|] == p;
    }
    assert Name(p + "/.") == Name(p) by {
      assert LastIndexOf(p + "/.", '/') == |p|;
      assert (p + "/.")[|p| + 1..] == ".";
      assert (p + "/.")[..|p|] == p;
    }
  }
}
