/** Node's `path` functions on the normalized, slash-separated paths the
    scripts build with `path.join`: no trailing slash, no empty segment. */
module Paths {
  import opened Text

  /** Index of the last occurrence of `c` in `s`. */
  function LastIndexOf(s: string, c: char): (r: Option<nat>)
    ensures r.Some? ==> r.value < |s| && s[r.value] == c && forall k :: r.value < k < |s| ==> s[k] != c
    ensures r.None? ==> forall k :: 0 <= k < |s| ==> s[k] != c
  {
    if s == [] then None
    else if s[|s| - 1] == c then Some(|s| - 1)
    else LastIndexOf(s[..|s| - 1], c)
  }

  /** `path.dirname`: everything before the last `/`; "." when there is none,
      "/" when the only `/` is the leading one. */
  function Dirname(p: string): string {
    match LastIndexOf(p, '/')
    case None => "."
    case Some(i) => if i == 0 then "/" else p[..i]
  }

  /** `path.join(dir, name)` for a single segment `name`; joining onto "."
      normalizes the "./" away. */
  function Join(dir: string, name: string): string {
    if dir == "." then name
    else if dir == "/" then "/" + name
    else dir + "/" + name
  }

  /** `path.parse(base)` of a file name without slashes: `name` and `ext`.
      The extension starts at the last dot, unless that dot opens the name
      (".bashrc", ".jpg") or the name is "..". */
  function ParseBase(base: string): (r: (string, string))
    ensures r.0 + r.1 == base
    ensures r.1 == [] || (r.1[0] == '.' && r.0 != [])
  {
    if base == ".." then (base, "")
    else match LastIndexOf(base, '.')
      case None => (base, "")
      case Some(i) => if i == 0 then (base, "") else (base[..i], base[i..])
  }

  /** A name that ends, up to case, with a one-dot extension `e` (".jpg",
      ".mp4") is split by `path.parse` just before that extension, unless
      the name is nothing but the extension, which `path.parse` reads as a
      name without extension. `l` is the lowered name. */
  lemma ParseBaseExtension(file: string, l: string, e: string)
    requires |l| == |file| && forall j :: 0 <= j < |file| ==> l[j] == ToLowerChar(file[j])
    requires |e| >= 2 && e[0] == '.' && forall k :: 1 <= k < |e| ==> e[k] != '.'
    requires EndsWith(l, e)
    ensures var i := |file| - |e|;
      ParseBase(file) == if i == 0 then (file, "") else (file[..i], file[i..])
  {
    var i := |file| - |e|;
    forall j | i <= j < |file|
      ensures ToLowerChar(file[j]) == e[j - i]
    {
      assert l[i..][j - i] == l[j];
    }
    LowerDot(file[i]);
    forall k | i < k < |file|
      ensures file[k] != '.'
    {
      LowerDot(file[k]);
    }
    LastIndexOfIs(file, '.', i);
    if i != 0 {
      assert |file| > 2;
      assert file != "..";
    }
  }

  /** The last occurrence of `c` is the one with no other after it. */
  lemma LastIndexOfIs(s: string, c: char, i: nat)
    requires i < |s| && s[i] == c && forall k :: i < k < |s| ==> s[k] != c
    ensures LastIndexOf(s, c) == Some(i)
  {
  }

  /** Lowering turns no other character into a dot. */
  lemma LowerDot(c: char)
    ensures ToLowerChar(c) == '.' <==> c == '.'
  {
  }

  /** A directory that `Dirname` can return and that always exists. */
  predicate IsRoot(p: string) {
    p == "." || p == "/"
  }

  /** Apart from the two roots, the parent of `p` is a proper prefix of `p`
      that ends just before a `/`: climbing `Dirname` terminates. */
  lemma DirnameIsAncestor(p: string)
    requires !IsRoot(Dirname(p))
    ensures |Dirname(p)| < |p| && p[..|Dirname(p)|] == Dirname(p) && p[|Dirname(p)|] == '/'
  {
  }

  /** Appending text without a `/` leaves the last `/` where it was. */
  lemma {:induction false} LastIndexOfAppend(p: string, s: string, c: char)
    requires forall k :: 0 <= k < |s| ==> s[k] != c
    decreases |s|
    ensures LastIndexOf(p + s, c) == LastIndexOf(p, c)
  {
    if s != [] {
      assert (p + s)[..|p + s| - 1] == p + s[..|s| - 1];
      LastIndexOfAppend(p, s[..|s| - 1], c);
    } else {
      assert p + s == p;
    }
  }

  /** Appending a suffix without `/` to a file name keeps its directory. */
  lemma DirnameAppend(p: string, s: string)
    requires forall k :: 0 <= k < |s| ==> s[k] != '/'
    ensures Dirname(p + s) == Dirname(p)
  {
    LastIndexOfAppend(p, s, '/');
    match LastIndexOf(p, '/')
    case None =>
    case Some(i) =>
      assert (p + s)[..i] == p[..i];
  }

  /** The directory of `path.join(dir, name)` is `dir`, for a single
      segment `name`. */
  lemma DirnameJoin(dir: string, name: string)
    requires dir != [] && forall k :: 0 <= k < |name| ==> name[k] != '/'
    ensures Dirname(Join(dir, name)) == dir
  {
    if dir == "." {
      LastIndexOfAppend([], name, '/');
      assert [] + name == name;
    } else if dir == "/" {
      LastIndexOfAppend("/", name, '/');
    } else {
      LastIndexOfAppend(dir + "/", name, '/');
      assert (dir + "/")[..|dir + "/"| - 1] == dir;
      assert (dir + "/" + name)[..|dir|] == dir;
    }
  }
}
