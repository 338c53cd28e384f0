/**
 POSIX path handling in the manner of Node's `path` module.

 A path string is modelled by what Node's functions read from it: whether it
 starts with '/', and its non-empty components (the text between separators,
 so repeated and trailing slashes disappear). Components "." and ".." are
 kept until a path is resolved. A resolved path is absolute and normalised:
 a sequence of names, none of which is "." or "..", the root being [].
 */
module NodePath {

  /** A non-empty path component: text between two '/' separators. */
  type Piece = s: string | s != "" && '/' !in s witness "x"

  /** A component that survives normalisation. */
  type Name = s: Piece | s != "." && s != ".." witness "x"

  /** A resolved absolute path; [] is the root "/". */
  type AbsPath = seq<Name>

  /** A path string as parsed by Node: leading '/' and its components. */
  datatype RawPath = RawPath(absolute: bool, pieces: seq<Piece>)

  /** JavaScript truthiness of the path string: only "" parses to RawPath(false, []). */
  predicate Truthy(p: RawPath)
  {
    p.absolute || |p.pieces| > 0
  }

  /** The string form of a resolved path. */
  function Abs(p: AbsPath): RawPath
  {
    RawPath(true, p)
  }

  /** A path string made of a single file name, which may be empty. */
  function Segment(name: string): (r: RawPath)
    requires '/' !in name
    ensures !r.absolute
    ensures Truthy(r) <==> name != ""
  {
    if name == "" then RawPath(false, []) else RawPath(false, [name])
  }

  /** One step of normalisation: "." stays, ".." climbs (never above the root). */
  function Step(acc: AbsPath, piece: Piece): AbsPath
  {
    if piece == "." then acc
    else if piece == ".." then (if |acc| == 0 then acc else acc[..|acc| - 1])
    else acc + [piece]
  }

  function Normalize(acc: AbsPath, pieces: seq<Piece>): AbsPath
    decreases |pieces|
  {
    if |pieces| == 0 then acc else Normalize(Step(acc, pieces[0]), pieces[1..])
  }

  /** path.resolve(base, p) for an absolute base: an absolute p ignores the base. */
  function Resolve(base: AbsPath, p: RawPath): AbsPath
  {
    Normalize(if p.absolute then [] else base, p.pieces)
  }

  /** path.dirname of a resolved path. */
  function Dirname(p: AbsPath): (r: AbsPath)
    ensures |p| > 0 ==> r + [p[|p| - 1]] == p
    ensures |p| == 0 ==> r == []
  {
    if |p| == 0 then [] else p[..|p| - 1]
  }

  /** path.basename: the last component, "" for "" and "/". */
  function Basename(p: RawPath): (r: string)
    ensures '/' !in r
    ensures r == "" <==> |p.pieces| == 0
  {
    if |p.pieces| == 0 then "" else p.pieces[|p.pieces| - 1]
  }

  /** The `dir` field of path.parse: the path without its last component. */
  function ParseDir(p: RawPath): RawPath
  {
    RawPath(p.absolute, if |p.pieces| == 0 then [] else p.pieces[..|p.pieces| - 1])
  }

  /**
   path.dirname of an unresolved path string, up to resolution: a relative
   path with at most one component yields ".".
   */
  function RawDirname(p: RawPath): (r: RawPath)
    ensures Truthy(r)
    ensures r.absolute == p.absolute
  {
    if p.absolute || |p.pieces| > 1 then ParseDir(p) else RawPath(false, ["."])
  }

  /** Index of the last '.' in s, or -1. */
  function LastDot(s: string): (k: int)
    ensures -1 <= k < |s|
    ensures k >= 0 ==> s[k] == '.'
    ensures forall j :: k < j < |s| ==> s[j] != '.'
  {
    if |s| == 0 then -1
    else if s[|s| - 1] == '.' then |s| - 1
    else LastDot(s[..|s| - 1])
  }

  /**
   path.extname of a base name: from the last dot to the end, except that a
   dot at the start of the name, or the name "..", gives no extension.
   */
  function Extname(base: string): string
  {
    var k := LastDot(base);
    if k <= 0 || base == ".." then "" else base[k..]
  }

  /**
   An extension is a proper suffix of the name that starts with its only
   dot; there is none exactly when the name has no dot after its first
   character, or is "..".
   */
  lemma ExtnameShape(base: string)
    ensures var e := Extname(base);
            && (|e| < |base| || e == "")
            && base[|base| - |e|..] == e
            && (e != "" ==> e[0] == '.' && forall j :: 0 < j < |e| ==> e[j] != '.')
            && (e == "" <==> LastDot(base) <= 0 || base == "..")
  {
  }

  /** The `name` field of path.parse: the base name without its extension. */
  function Stem(base: string): (r: string)
    ensures r + Extname(base) == base
    ensures Extname(base) != "" ==> r != ""
  {
    ExtnameShape(base);
    base[..|base| - |Extname(base)|]
  }

  /** `parse(f).name + middle + parse(f).ext` for a base name f. */
  function Infix(base: string, middle: Name): (r: Name)
    requires '/' !in base
  {
    var stem, ext := Stem(base), Extname(base);
    assert forall c :: c in stem || c in ext ==> c in base by {
      assert base == stem + ext;
    }
    var r := stem + "." + middle + ext;
    assert r != ".." by {
      if |r| == 2 {
        assert |middle| == 1 && r[1] == middle[0];
      }
    }
    r
  }

  /** Length of the longest common prefix of two resolved paths. */
  function CommonPrefix(a: AbsPath, b: AbsPath): (k: nat)
    ensures k <= |a| && k <= |b|
    ensures a[..k] == b[..k]
    ensures k < |a| && k < |b| ==> a[k] != b[k]
  {
    if |a| == 0 || |b| == 0 || a[0] != b[0] then 0
    else
      var k := 1 + CommonPrefix(a[1..], b[1..]);
      assert a[..k] == [a[0]] + a[1..][..k - 1];
      assert b[..k] == [b[0]] + b[1..][..k - 1];
      k
  }

  /** n ".." components. */
  function Ups(n: nat): (r: seq<Piece>)
    ensures |r| == n
    ensures forall i :: 0 <= i < n ==> r[i] == ".."
  {
    if n == 0 then [] else Ups(n - 1) + [".."]
  }

  /**
   path.relative(from, to) for resolved paths: climb out of `from` to the
   common prefix, then descend into the rest of `to`; "" when they are equal.
   Resolving the result against `from` gives back `to`.
   */
  function Relative(from: AbsPath, to: AbsPath): (r: RawPath)
    ensures !r.absolute
    ensures Resolve(from, r) == to
    ensures Truthy(r) <==> from != to
  {
    var k := CommonPrefix(from, to);
    RelativeSound(from, to, k);
    RawPath(false, Ups(|from| - k) + to[k..])
  }

  /** Climbing out of `from` to a shared prefix of length k and descending again reaches `to`. */
  lemma RelativeSound(from: AbsPath, to: AbsPath, k: nat)
    requires k <= |from| && k <= |to| && from[..k] == to[..k]
    requires k < |from| && k < |to| ==> from[k] != to[k]
    ensures Normalize(from, Ups(|from| - k) + to[k..]) == to
    ensures |Ups(|from| - k) + to[k..]| > 0 <==> from != to
  {
    assert Normalize(from, Ups(|from| - k)) == from[..k] by {
      NormalizeUps(from, |from| - k);
    }
    assert Normalize(from[..k], to[k..]) == to by {
      NormalizeNames(from[..k], to[k..]);
      assert from[..k] + to[k..] == to;
    }
    NormalizeAppend(from, Ups(|from| - k), to[k..]);
    assert from != to ==> k < |from| || k < |to| by {
      if k == |from| && k == |to| {
        assert from == from[..k] && to == to[..k];
      }
    }
  }

  /** A path inside `dir` is reached from it by its remaining components alone. */
  lemma RelativeDescendant(dir: AbsPath, rest: seq<Name>)
    ensures Relative(dir, dir + rest) == RawPath(false, rest)
  {
    var to := dir + rest;
    assert forall i :: 0 <= i < |dir| ==> to[i] == dir[i];
    var k := CommonPrefix(dir, to);
    assert Ups(0) == [];
    assert to[|dir|..] == rest;
  }

  lemma {:induction false} NormalizeAppend(acc: AbsPath, a: seq<Piece>, b: seq<Piece>)
    ensures Normalize(acc, a + b) == Normalize(Normalize(acc, a), b)
    decreases |a|
  {
    if |a| == 0 {
      assert a + b == b;
    } else {
      assert (a + b)[1..] == a[1..] + b;
      NormalizeAppend(Step(acc, a[0]), a[1..], b);
    }
  }

  lemma {:induction false} NormalizeUps(acc: AbsPath, n: nat)
    requires n <= |acc|
    ensures Normalize(acc, Ups(n)) == acc[..|acc| - n]
  {
    if n > 0 {
      NormalizeAppend(acc, Ups(n - 1), [".."]);
      NormalizeUps(acc, n - 1);
    }
  }

  lemma {:induction false} NormalizeNames(acc: AbsPath, names: seq<Name>)
    ensures Normalize(acc, names) == acc + names
    decreases |names|
  {
    if |names| > 0 {
      NormalizeNames(acc + [names[0]], names[1..]);
      assert acc + [names[0]] + names[1..] == acc + names;
    }
  }

  /**
   A name with an extension keeps it when a tag is inserted before it:
   parse(name.tag.ext) gives back ext, with name.tag as its name.
   */
  lemma InfixParse(base: string, middle: Name)
    requires '/' !in base
    requires Extname(base) != ""
    ensures Extname(Infix(base, middle)) == Extname(base)
    ensures Stem(Infix(base, middle)) == Stem(base) + "." + middle
  {
    var stem, ext := Stem(base), Extname(base);
    ExtnameShape(base);
    var r := Infix(base, middle);
    assert r == stem + "." + middle + ext;
    var d := |r| - |ext|;
    assert r[d..] == ext;
    assert r[d] == '.';
    var k := LastDot(r);
    assert k == d;
    assert |r| >= 4;
  }
}
