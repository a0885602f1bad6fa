/** Paths as sequences of components: splitting, normal form and rendering. */
module Paths {

  type Comp = s: string | s != [] && '/' !in s witness "a"

  /** The path without its leading slashes. */
  function Skip(p: string): (q: string)
    ensures |q| <= |p| && (q != [] ==> q[0] != '/')
  {
    if p != [] && p[0] == '/' then Skip(p[1..]) else p
  }

  /** How many characters come before the first slash. */
  function RunLen(p: string): (n: nat)
    ensures n <= |p| && '/' !in p[..n] && (n < |p| ==> p[n] == '/')
  {
    if p == [] || p[0] == '/' then 0 else
    var m := RunLen(p[1..]);
    assert p[..1 + m] == [p[0]] + p[1..][..m];
    1 + m
  }

  function Split(p: string): seq<Comp>
    decreases |p|
  {
    if p == [] then [] else if p[0] == '/' then Split(p[1..]) else
    var n := RunLen(p);
    [p[..n]] + Split(p[n..])
  }

  /** Leading slashes do not matter. */
  lemma {:induction false} SkipSplit(p: string)
    ensures Split(Skip(p)) == Split(p) && Skip(Skip(p)) == Skip(p)
  {
    if p != [] && p[0] == '/' {
      SkipSplit(p[1..]);
    }
  }

  function Render1(s: seq<Comp>): string {
    if s == [] then "" else Render1(s[..|s| - 1]) + "/" + s[|s| - 1]
  }

  /** The absolute path with the given components. */
  function Render(s: seq<Comp>): (p: string)
    ensures p != []
  {
    if s == [] then "/" else Render1(s)
  }

  /** One component of a path, applied to the components so far: "." stays, ".." goes up, a name goes down. */
  function Step(stack: seq<Comp>, c: Comp): seq<Comp> {
    if c == "." then stack
    else if c == ".." then (if stack == [] then [] else stack[..|stack| - 1])
    else stack + [c]
  }

  function Walk(stack: seq<Comp>, cs: seq<Comp>): seq<Comp>
    decreases |cs|
  {
    if cs == [] then stack else Walk(Step(stack, cs[0]), cs[1..])
  }

  /** The normal form of a path. */
  function Normal(p: string): string {
    Render(Walk([], Split(p)))
  }

  predicate Ordinary(s: seq<Comp>) {
    forall i | 0 <= i < |s| :: s[i] != "." && s[i] != ".."
  }

  // ------------------------------------------------------------------ laws

  lemma {:induction false} WalkConcat(stack: seq<Comp>, a: seq<Comp>, b: seq<Comp>)
    ensures Walk(stack, a + b) == Walk(Walk(stack, a), b)
    decreases |a|
  {
    if a == [] {
      assert a + b == b;
    } else {
      assert (a + b)[1..] == a[1..] + b;
      WalkConcat(Step(stack, a[0]), a[1..], b);
    }
  }

  /** Names only go down. */
  lemma {:induction false} WalkDown(stack: seq<Comp>, s: seq<Comp>)
    requires Ordinary(s)
    ensures Walk(stack, s) == stack + s
    decreases |s|
  {
    if s == [] {
      assert stack + s == stack;
    } else {
      WalkDown(stack + [s[0]], s[1..]);
      assert stack + [s[0]] + s[1..] == stack + s;
    }
  }

  /** A walk never leaves "." or ".." behind. */
  lemma {:induction false} WalkOrdinary(stack: seq<Comp>, s: seq<Comp>)
    requires Ordinary(stack)
    ensures Ordinary(Walk(stack, s))
    decreases |s|
  {
    if s != [] {
      WalkOrdinary(Step(stack, s[0]), s[1..]);
    }
  }

  lemma {:induction false} RunLenIs(c: string, rest: string)
    requires '/' !in c && (rest == [] || rest[0] == '/')
    ensures RunLen(c + rest) == |c|
    decreases |c|
  {
    if c == [] {
      assert c + rest == rest;
    } else {
      assert (c + rest)[1..] == c[1..] + rest;
      RunLenIs(c[1..], rest);
    }
  }

  /** A component followed by the end of the path or a slash. */
  lemma {:induction false} SplitCons(c: Comp, rest: string)
    requires rest == [] || rest[0] == '/'
    ensures Split(c + rest) == [c] + Split(rest)
  {
    assert (c + rest)[0] == c[0] && c[0] in c;
    RunLenIs(c, rest);
    assert (c + rest)[..|c|] == c && (c + rest)[|c|..] == rest;
  }

  lemma {:induction false} SplitSlash(rest: string)
    ensures Split("/" + rest) == Split(rest)
  {
  }

  /** The components of two paths with a slash between them. */
  lemma {:induction false} SplitConcat(p: string, rest: string)
    requires rest == [] || rest[0] == '/'
    ensures Split(p + rest) == Split(p) + Split(rest)
    decreases |p|
  {
    if p == [] {
      assert p + rest == rest;
    } else if p[0] == '/' {
      assert p == "/" + p[1..] && p + rest == "/" + (p[1..] + rest);
      SplitSlash(p[1..]);
      SplitSlash(p[1..] + rest);
      SplitConcat(p[1..], rest);
    } else {
      var n := RunLen(p);
      assert n > 0 && p == p[..n] + p[n..];
      SplitConcat(p[n..], rest);
      SplitRun(p[..n], p[n..], rest);
    }
  }

  lemma {:induction false} SplitRun(c: Comp, tail: string, rest: string)
    requires (tail == [] || tail[0] == '/') && (rest == [] || rest[0] == '/')
    requires Split(tail + rest) == Split(tail) + Split(rest)
    ensures Split((c + tail) + rest) == Split(c + tail) + Split(rest)
  {
    SplitCons(c, tail);
    SplitCons(c, tail + rest);
    assert (c + tail) + rest == c + (tail + rest);
    Regroup([c], Split(tail), Split(rest));
  }

  lemma {:induction false} Regroup(a: seq<Comp>, b: seq<Comp>, c: seq<Comp>)
    ensures a + (b + c) == (a + b) + c
  {
  }

  /** One more component at the end. */
  lemma {:induction false} SplitAppend(p: string, c: Comp)
    ensures Split(p + "/" + c) == Split(p) + [c]
  {
    assert p + "/" + c == p + ("/" + c);
    SplitConcat(p, "/" + c);
    SplitSlash(c);
    assert c + [] == c;
    SplitCons(c, []);
  }

  /** Splitting undoes rendering. */
  lemma {:induction false} SplitRender(s: seq<Comp>)
    ensures Split(Render(s)) == s
  {
    if s == [] {
      assert Skip("/") == [];
    } else {
      SplitRender1(s);
    }
  }

  lemma {:induction false} SplitRender1(s: seq<Comp>)
    ensures Split(Render1(s)) == s
    decreases |s|
  {
    if s != [] {
      var t, c := s[..|s| - 1], s[|s| - 1];
      SplitRender1(t);
      SplitAppend(Render1(t), c);
      assert s == t + [c];
    }
  }

  /** Normalising is idempotent. */
  lemma {:induction false} NormalIdempotent(p: string)
    ensures Normal(Normal(p)) == Normal(p)
  {
    var s := Walk([], Split(p));
    WalkOrdinary([], Split(p));
    SplitRender(s);
    WalkDown([], s);
    assert [] + s == s;
  }

  /** A normal path is absolute, without empty, "." and ".." components. */
  lemma {:induction false} NormalShape(p: string)
    ensures Ordinary(Split(Normal(p))) && Normal(p)[0] == '/'
  {
    var s := Walk([], Split(p));
    WalkOrdinary([], Split(p));
    SplitRender(s);
    if s != [] {
      Absolute(s);
    }
  }

  lemma {:induction false} Absolute(s: seq<Comp>)
    requires s != []
    ensures Render1(s)[0] == '/'
    decreases |s|
  {
    if |s| > 1 {
      Absolute(s[..|s| - 1]);
    }
  }

  // ------------------------------------------------------------------ relative paths

  /** How many leading components the two paths share. */
  function Common(a: seq<Comp>, b: seq<Comp>): (n: nat)
    ensures n <= |a| && n <= |b| && a[..n] == b[..n] && (n < |a| && n < |b| ==> a[n] != b[n])
  {
    if a == [] || b == [] || a[0] != b[0] then 0 else
    var m := Common(a[1..], b[1..]);
    assert a[..1 + m] == [a[0]] + a[1..][..m] && b[..1 + m] == [b[0]] + b[1..][..m];
    1 + m
  }

  /** `n` times "../". */
  function Ups(n: nat): string {
    if n == 0 then "" else Ups(n - 1) + "../"
  }

  function Join(s: seq<Comp>): string {
    if s == [] then "" else if |s| == 1 then s[0] else Join(s[..|s| - 1]) + "/" + s[|s| - 1]
  }

  /** Some steps up and some components down, written out; "." for neither. */
  function Route(ups: nat, down: seq<Comp>): string {
    var r := Ups(ups) + Join(down);
    if r == "" then "." else r
  }

  /** The way from one directory to another path. */
  function Relative(a: seq<Comp>, b: seq<Comp>): string {
    var n := Common(a, b);
    Route(|a| - n, b[n..])
  }

  function UpComps(n: nat): seq<Comp> {
    if n == 0 then [] else UpComps(n - 1) + [".."]
  }

  lemma {:induction false} SplitUps(n: nat, rest: string)
    ensures Split(Ups(n) + rest) == UpComps(n) + Split(rest)
    decreases n
  {
    if n == 0 {
      assert Ups(0) + rest == rest;
    } else {
      assert Ups(n) + rest == Ups(n - 1) + (".." + ("/" + rest));
      SplitUps(n - 1, ".." + ("/" + rest));
      SplitCons("..", "/" + rest);
      SplitSlash(rest);
      assert UpComps(n - 1) + ([".."] + Split(rest)) == UpComps(n) + Split(rest);
    }
  }

  lemma {:induction false} SplitJoin(s: seq<Comp>)
    ensures Split(Join(s)) == s
    decreases |s|
  {
    if |s| == 1 {
      assert s[0] == s[0] + [];
      SplitCons(s[0], []);
    } else if s != [] {
      var t, c := s[..|s| - 1], s[|s| - 1];
      SplitJoin(t);
      SplitAppend(Join(t), c);
      assert s == t + [c];
    }
  }

  /** Going up as far as a path is below a prefix of it. */
  lemma {:induction false} WalkUp(stack: seq<Comp>, n: nat)
    requires n <= |stack|
    ensures Walk(stack, UpComps(n)) == stack[..|stack| - n]
    decreases n
  {
    if n > 0 {
      WalkUp(stack, n - 1);
      WalkConcat(stack, UpComps(n - 1), [".."]);
      assert Walk(stack[..|stack| - (n - 1)], [".."]) == Step(stack[..|stack| - (n - 1)], "..");
    }
  }

  /** A relative path is followed from its directory. */
  lemma {:induction false} Follow(dir: seq<Comp>, rel: string, end: seq<Comp>)
    requires Ordinary(dir) && Walk(dir, Split(rel)) == end
    ensures Normal(Render(dir) + "/" + rel) == Render(end)
  {
    assert Render(dir) + "/" + rel == Render(dir) + ("/" + rel);
    SplitConcat(Render(dir), "/" + rel);
    SplitSlash(rel);
    SplitRender(dir);
    WalkConcat([], dir, Split(rel));
    WalkDown([], dir);
    assert [] + dir == dir;
  }

  lemma {:induction false} WalkRelative(dir: seq<Comp>, a: seq<Comp>, b: seq<Comp>)
    requires Ordinary(b) && |a| <= |dir|
    ensures Walk(dir, Split(Relative(a, b))) == Reached(dir, a, b)
  {
    var n := Common(a, b);
    OrdinaryTail(b, n);
    WalkRoute(dir, |a| - n, b[n..]);
  }

  lemma {:induction false} OrdinaryTail(b: seq<Comp>, n: nat)
    requires Ordinary(b) && n <= |b|
    ensures Ordinary(b[n..])
  {
  }

  /** Following the relative path from `a` leads to `b`. */
  lemma {:induction false} RelativeLeads(a: seq<Comp>, b: seq<Comp>)
    requires Ordinary(a) && Ordinary(b)
    ensures Normal(Render(a) + "/" + Relative(a, b)) == Render(b)
  {
    WalkRelative(a, a, b);
    ReachedTarget(a, b);
    Follow(a, Relative(a, b), b);
  }

  lemma {:induction false} SplitRoute(ups: nat, down: seq<Comp>)
    ensures Split(Route(ups, down)) == if ups == 0 && down == [] then ["."] else UpComps(ups) + down
  {
    SplitDot();
    UpsLength(ups);
    SplitUps(ups, Join(down));
    SplitJoin(down);
    assert |Ups(ups) + Join(down)| == 3 * ups + |Join(down)|;
  }

  lemma {:induction false} SplitDot()
    ensures Split(".") == ["."]
  {
    SplitCons(".", []);
    assert "." + [] == ".";
  }

  /** Where the relative path leads when it is followed from a directory that only begins with `a`. */
  function Reached(dir: seq<Comp>, a: seq<Comp>, b: seq<Comp>): seq<Comp>
    requires |a| <= |dir|
  {
    var n := Common(a, b);
    dir[..|dir| - (|a| - n)] + b[n..]
  }

  lemma {:induction false} WalkRoute(dir: seq<Comp>, ups: nat, down: seq<Comp>)
    requires Ordinary(down) && ups <= |dir|
    ensures Walk(dir, Split(Route(ups, down))) == dir[..|dir| - ups] + down
  {
    SplitRoute(ups, down);
    UpAndDown(dir, ups, down);
    WalkDot(dir);
  }

  lemma {:induction false} WalkDot(dir: seq<Comp>)
    ensures Walk(dir, ["."]) == dir
  {
    assert Walk(Step(dir, "."), []) == dir;
  }

  lemma {:induction false} UpAndDown(dir: seq<Comp>, ups: nat, down: seq<Comp>)
    requires Ordinary(down) && ups <= |dir|
    ensures Walk(dir, UpComps(ups) + down) == dir[..|dir| - ups] + down
  {
    WalkUp(dir, ups);
    WalkConcat(dir, UpComps(ups), down);
    WalkDown(dir[..|dir| - ups], down);
  }

  lemma {:induction false} ReachedTarget(a: seq<Comp>, b: seq<Comp>)
    ensures Reached(a, a, b) == b
  {
    var n := Common(a, b);
    assert a[..n] + b[n..] == b[..n] + b[n..] == b;
  }

  lemma {:induction false} UpsLength(n: nat)
    ensures |Ups(n)| == 3 * n
  {
    if n > 0 {
      UpsLength(n - 1);
    }
  }
}
