/**
 * Node's `path.resolve` on POSIX paths, as lexical segment normalisation.
 *
 * A path is split on `/`; empty and `.` segments are dropped; `..` removes
 * the last name and stays put at the root; an absolute argument discards
 * everything to its left, and when no argument is absolute the process's
 * working directory is put in front. The result is written with a leading
 * `/`, names separated by single `/`, and no trailing `/` (the root is `/`).
 * Nothing here touches a filesystem: symbolic links are not followed.
 */
module PosixPath {

  const Sep: char := '/'

  /** A piece of a path between separators. */
  type Segment = s: string | Sep !in s

  /** A segment that names a directory entry: not empty, not `.`, not `..`. */
  predicate IsName(s: string) {
    s != "" && s != "." && s != ".." && Sep !in s
  }

  predicate Canonical(p: seq<string>) {
    forall i :: 0 <= i < |p| ==> IsName(p[i])
  }

  /** A canonical absolute path as its list of names from the root; `[]` is `/`. */
  type Dir = p: seq<string> | Canonical(p) witness []

  predicate IsAbsolute(s: string) {
    |s| > 0 && s[0] == Sep
  }

  /** `s.startsWith(prefix)` */
  predicate StartsWith(s: string, prefix: string) {
    prefix <= s
  }

  // ---------------------------------------------------------------------------
  // Splitting on the separator, and its inverse

  /** `s.split('/')` */
  function Split(s: string): (r: seq<Segment>)
    ensures 0 < |r| <= |s| + 1
  {
    if s == [] then [""]
    else
      var rest := Split(s[1..]);
      if s[0] == Sep then [""] + rest
      else [[s[0]] + rest[0]] + rest[1..]
  }

  /** `segs.join('/')` */
  function Join(segs: seq<string>): (s: string)
    requires |segs| > 0
  {
    if |segs| == 1 then segs[0] else segs[0] + [Sep] + Join(segs[1..])
  }

  lemma {:induction false} JoinSplit(s: string)
    ensures Join(Split(s)) == s
  {
    if s != [] {
      JoinSplit(s[1..]);
      var rest := Split(s[1..]);
      if s[0] == Sep {
        assert s == [Sep] + s[1..];
        assert Join([""] + rest) == "" + [Sep] + Join(rest);
      } else {
        if |rest| == 1 {
          assert Split(s) == [[s[0]] + rest[0]];
          assert s == [s[0]] + s[1..];
        } else {
          assert Split(s)[1..] == rest[1..];
          assert Join(Split(s)) == [s[0]] + rest[0] + [Sep] + Join(rest[1..]);
          assert s == [s[0]] + s[1..];
        }
      }
    }
  }

  lemma {:induction false} SplitJoin(segs: seq<Segment>)
    requires |segs| > 0
    ensures Split(Join(segs)) == segs
  {
    if |segs| == 1 {
      SplitName(segs[0]);
    } else {
      SplitJoin(segs[1..]);
      SplitAppend(segs[0], Join(segs[1..]));
      SplitName(segs[0]);
      assert segs == [segs[0]] + segs[1..];
    }
  }

  /** A string with no separator is a single segment. */
  lemma {:induction false} SplitName(s: string)
    requires Sep !in s
    ensures Split(s) == [s]
  {
    if s != [] {
      SplitName(s[1..]);
      assert s == [s[0]] + s[1..];
    }
  }

  /** Splitting distributes over a join at one separator. */
  lemma {:induction false} SplitAppend(a: string, b: string)
    ensures Split(a + [Sep] + b) == Split(a) + Split(b)
  {
    if a == [] {
      assert a + [Sep] + b == [Sep] + b;
      assert ([Sep] + b)[1..] == b;
    } else {
      var ab := a + [Sep] + b;
      assert ab[0] == a[0];
      assert ab[1..] == a[1..] + [Sep] + b;
      SplitAppend(a[1..], b);
    }
  }

  // ---------------------------------------------------------------------------
  // Normalisation

  /** The effect of one segment on the directory reached so far. */
  function Step(dir: Dir, seg: Segment): (r: Dir)
    ensures seg != ".." ==> dir <= r && |r| <= |dir| + 1
    ensures seg == ".." ==> r <= dir && (dir != [] ==> |r| == |dir| - 1)
  {
    if seg == "" || seg == "." then dir
    else if seg == ".." then (if dir == [] then [] else dir[..|dir| - 1])
    else dir + [seg]
  }

  /** Walks the segments from `dir`, left to right. */
  function Walk(dir: Dir, segs: seq<Segment>): (r: Dir)
    ensures |r| <= |dir| + |segs|
    decreases |segs|
  {
    if segs == [] then dir else Walk(Step(dir, segs[0]), segs[1..])
  }

  lemma {:induction false} WalkAppend(dir: Dir, a: seq<Segment>, b: seq<Segment>)
    ensures Walk(dir, a + b) == Walk(Walk(dir, a), b)
    decreases |a|
  {
    if a != [] {
      assert (a + b)[0] == a[0];
      assert (a + b)[1..] == a[1..] + b;
      WalkAppend(Step(dir, a[0]), a[1..], b);
    } else {
      assert a + b == b;
    }
  }

  /** Names alone are appended unchanged. */
  lemma {:induction false} WalkNames(dir: Dir, names: seq<Segment>)
    requires Canonical(names)
    ensures Walk(dir, names) == dir + names
    decreases |names|
  {
    if names != [] {
      WalkNames(dir + [names[0]], names[1..]);
      assert dir + [names[0]] + names[1..] == dir + names;
    }
  }

  /** Without `..` a walk never leaves the directory it starts from. */
  lemma {:induction false} WalkStaysBelow(dir: Dir, segs: seq<Segment>)
    requires forall i :: 0 <= i < |segs| ==> segs[i] != ".."
    ensures dir <= Walk(dir, segs)
    decreases |segs|
  {
    if segs != [] {
      WalkStaysBelow(Step(dir, segs[0]), segs[1..]);
    }
  }

  /** Enough `..` segments reach the root, and the root is their floor. */
  lemma {:induction false} WalkClimb(dir: Dir, k: nat)
    requires k >= |dir|
    ensures Walk(dir, Ups(k)) == []
    decreases k
  {
    if k > 0 {
      assert Ups(k)[0] == ".." && Ups(k)[1..] == Ups(k - 1);
      WalkClimb(Step(dir, ".."), k - 1);
    }
  }

  /** `k` copies of the segment `..`. */
  function Ups(k: nat): (r: seq<Segment>)
    ensures |r| == k
    ensures forall i :: 0 <= i < k ==> r[i] == ".."
  {
    if k == 0 then [] else [".."] + Ups(k - 1)
  }

  // ---------------------------------------------------------------------------
  // Writing a canonical path back as a string

  /** `/a/b/c` for `[a, b, c]`, the empty string for `[]`. */
  function Slashed(p: seq<string>): (s: string) {
    if p == [] then "" else [Sep] + p[0] + Slashed(p[1..])
  }

  /** The string `path.resolve` returns for a canonical path. */
  function Format(p: Dir): (s: string)
    ensures IsAbsolute(s)
  {
    if p == [] then [Sep] else Slashed(p)
  }

  lemma {:induction false} SlashedAppend(a: seq<string>, b: seq<string>)
    ensures Slashed(a + b) == Slashed(a) + Slashed(b)
  {
    if a != [] {
      assert (a + b)[0] == a[0];
      assert (a + b)[1..] == a[1..] + b;
      SlashedAppend(a[1..], b);
      calc {
        Slashed(a + b);
        [Sep] + a[0] + Slashed(a[1..] + b);
        [Sep] + a[0] + (Slashed(a[1..]) + Slashed(b));
        ([Sep] + a[0] + Slashed(a[1..])) + Slashed(b);
      }
    } else {
      assert a + b == b;
    }
  }

  lemma {:induction false} SplitSlashed(p: Dir)
    requires p != []
    ensures Split(Slashed(p)) == [""] + p
  {
    var t := p[0] + Slashed(p[1..]);
    assert Slashed(p) == [] + [Sep] + t;
    SplitAppend([], t);
    SplitName(p[0]);
    if p[1..] == [] {
      assert t == p[0] + [];
      assert t == p[0];
    } else {
      var u := p[1] + Slashed(p[2..]);
      assert Slashed(p[1..]) == [Sep] + u;
      assert t == p[0] + [Sep] + u;
      SplitAppend(p[0], u);
      SplitSlashed(p[1..]);
      SplitAppend([], u);
      assert [] + [Sep] + u == Slashed(p[1..]);
      assert [""] + Split(u) == [""] + p[1..];
      assert Split(u) == ([""] + Split(u))[1..] == ([""] + p[1..])[1..] == p[1..];
      assert p == [p[0]] + p[1..];
    }
  }

  /** Reading a formatted path back gives the same path. */
  lemma FormatRoundTrip(p: Dir)
    ensures Walk([], Split(Format(p))) == p
  {
    if p == [] {
      assert Format(p) == [Sep];
      SplitAppend([], []);
      assert [] + [Sep] + [] == [Sep];
      assert Split(Format(p)) == ["", ""];
    } else {
      SplitSlashed(p);
      WalkAppend([], [""], p);
      WalkNames([], p);
    }
  }

  lemma FormatInjective(p: Dir, q: Dir)
    ensures Format(p) == Format(q) <==> p == q
  {
    FormatRoundTrip(p);
    FormatRoundTrip(q);
  }

  /** For a non-root directory, formatting a child is appending `/name`. */
  lemma FormatChild(p: Dir, n: string)
    requires IsName(n)
    ensures Canonical(p + [n])
    ensures p != [] ==> Format(p + [n]) == Format(p) + [Sep] + n
    ensures p == [] ==> Format(p + [n]) == [Sep] + n
  {
    SlashedAppend(p, [n]);
    assert Slashed([n]) == [Sep] + n + Slashed([]);
  }

  // ---------------------------------------------------------------------------
  // path.resolve

  /**
   * The segments `path.resolve(...args)` walks from the root: those of the
   * last absolute argument and everything after it, or, when no argument is
   * absolute, the working directory followed by all of them.
   */
  function Joined(cwd: Dir, args: seq<string>): (segs: seq<Segment>)
    decreases |args|
  {
    if args == [] then cwd
    else
      var last := args[|args| - 1];
      if IsAbsolute(last) then Split(last)
      else Joined(cwd, args[..|args| - 1]) + Split(last)
  }

  /** `path.resolve(...args)` when `process.cwd()` is `cwd`, as a canonical path. */
  function Resolve(cwd: Dir, args: seq<string>): (r: Dir)
    // no arguments: the working directory itself
    ensures args == [] ==> r == cwd
    // an absolute last argument discards the working directory and every earlier argument
    ensures args != [] && IsAbsolute(args[|args| - 1]) ==> r == Walk([], Split(args[|args| - 1]))
    // a relative last argument is walked from what the earlier arguments resolve to
    ensures args != [] && !IsAbsolute(args[|args| - 1]) ==>
              r == Walk(Resolve(cwd, args[..|args| - 1]), Split(args[|args| - 1]))
    decreases |args|
  {
    if args == [] then
      WalkNames([], cwd);
      Walk([], cwd)
    else
      var init, last := args[..|args| - 1], args[|args| - 1];
      WalkAppend([], Joined(cwd, init), Split(last));
      Walk([], Joined(cwd, args))
  }

  /** `path.resolve(...args)` as the string Node returns. */
  function ResolveString(cwd: Dir, args: seq<string>): (s: string)
    ensures IsAbsolute(s)
  {
    Format(Resolve(cwd, args))
  }

  /** Resolving an already resolved path changes nothing: resolve once is enough. */
  lemma ResolveIdempotent(cwd: Dir, s: string)
    ensures Resolve(cwd, [ResolveString(cwd, [s])]) == Resolve(cwd, [s])
  {
    var p := Resolve(cwd, [s]);
    assert [Format(p)][..0] == [];
    FormatRoundTrip(p);
  }

  /**
   * Resolving `name` against an absolute base (`path.resolve(base, name)`):
   * an absolute name replaces the base, a relative one is walked from it.
   * The working directory plays no part.
   */
  lemma ResolveAgainst(cwd: Dir, base: Dir, name: string)
    ensures Resolve(cwd, [Format(base), name])
         == if IsAbsolute(name) then Walk([], Split(name)) else Walk(base, Split(name))
  {
    var args := [Format(base), name];
    assert args[|args| - 1] == name;
    assert args[..|args| - 1] == [Format(base)];
    if !IsAbsolute(name) {
      assert [Format(base)][..0] == [];
      assert Joined(cwd, [Format(base)]) == Split(Format(base));
      WalkAppend([], Split(Format(base)), Split(name));
      FormatRoundTrip(base);
    }
  }

  // ---------------------------------------------------------------------------
  // The containment test on strings, and what it means on paths

  /** `filepath.startsWith(base + path.sep) || filepath === base` */
  predicate Within(filepath: string, base: string)
    ensures Within(filepath, base) ==> StartsWith(filepath, base)
  {
    StartsWith(filepath, base + [Sep]) || filepath == base
  }

  /** A path strictly below the base passes the `startsWith` half of the test. */
  lemma BelowPasses(base: Dir, p: Dir)
    requires base != [] && base <= p && base != p
    ensures StartsWith(Format(p), Format(base) + [Sep])
  {
    var rest := p[|base|..];
    assert p == base + rest;
    SlashedExtends(base, rest);
  }

  lemma SlashedExtends(a: seq<string>, b: seq<string>)
    requires b != []
    ensures Slashed(a) + [Sep] <= Slashed(a + b)
  {
    var tail := b[0] + Slashed(b[1..]);
    calc {
      Slashed(a + b);
      { SlashedAppend(a, b); }
      Slashed(a) + Slashed(b);
      Slashed(a) + ([Sep] + tail);
      (Slashed(a) + [Sep]) + tail;
    }
  }

  /** A path that passes the `startsWith` half of the test lies strictly below the base. */
  lemma PassesOnlyBelow(base: Dir, p: Dir)
    requires base != [] && StartsWith(Format(p), Format(base) + [Sep])
    ensures base <= p && base != p
  {
    assert |Slashed(base)| > 1;
    var t := Format(p)[|Slashed(base)| + 1..];
    assert p != [];
    SlashedSplitsAt(base, p, t);
  }

  /** If `/b.../` followed by `t` spells `/p...`, then `p` is `b` followed by the segments of `t`. */
  lemma SlashedSplitsAt(base: Dir, p: Dir, t: string)
    requires base != [] && p != []
    requires Slashed(p) == Slashed(base) + [Sep] + t
    ensures p == base + Split(t)
  {
    var sb := Slashed(base);
    calc {
      [""] + p;
      { SplitSlashed(p); }
      Split(Slashed(p));
      Split(sb + [Sep] + t);
      { SplitAppend(sb, t); }
      Split(sb) + Split(t);
      { SplitSlashed(base); }
      [""] + base + Split(t);
      [""] + (base + Split(t));
    }
    ConsCancel("", p, base + Split(t));
  }

  lemma ConsCancel(x: string, a: seq<string>, b: seq<string>)
    requires [x] + a == [x] + b
    ensures a == b
  {
    assert a == ([x] + a)[1..];
    assert b == ([x] + b)[1..];
  }

  /**
   * For a base other than the root, the string test accepts exactly the
   * paths that have the base's names as a prefix: the base itself and what
   * lies below it, and not a sibling that merely shares a string prefix.
   */
  lemma WithinIffBelow(base: Dir, p: Dir)
    requires base != []
    ensures Within(Format(p), Format(base)) <==> base <= p
  {
    FormatInjective(p, base);
    if base <= p && base != p {
      BelowPasses(base, p);
    }
    if StartsWith(Format(p), Format(base) + [Sep]) {
      PassesOnlyBelow(base, p);
    }
  }

  /** With the root as base, the test accepts the root alone: `"/" + "/"` starts no canonical path. */
  lemma WithinRoot(p: Dir)
    ensures Within(Format(p), Format([])) <==> p == []
  {
    if p != [] {
      assert Format(p) == [Sep] + p[0] + Slashed(p[1..]);
      assert IsName(p[0]);
      assert Format(p)[1] == p[0][0] != Sep;
      assert !StartsWith(Format(p), [Sep, Sep]);
      assert |Format(p)| >= 2;
    }
  }
}
