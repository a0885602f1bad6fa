/** fs/sysfs/symlink.c: the relative path from a directory to a link's target. */
module SysfsSymlink {
  import opened Paths
  import opened Namei

  const MAX_COMPONENTS: nat := 32

  /** The components that sysfs_relpath looks at. */
  function Seen(s: seq<Comp>): seq<Comp> {
    if |s| <= MAX_COMPONENTS then s else s[..MAX_COMPONENTS]
  }

  /** The first 32 components of a path. */
  method SplitComps(path: string) returns (cs: seq<Comp>)
    ensures cs == Seen(Split(path)) && cs <= Split(path) && |cs| <= 32 && (|cs| < 32 ==> cs == Split(path))
  {
    cs := [];
    var p := SkipSlashes(path, 0);
    assert path[0..] == path;
    SkipSplit(path);
    while p < |path| && |cs| < MAX_COMPONENTS
      invariant p <= |path| && path[p..] == Skip(path[p..]) && cs + Split(path[p..]) == Split(path)
      invariant |cs| <= MAX_COMPONENTS
      decreases |path| - p
    {
      var s := p;
      p := FindSlash(path, p);
      var c := NextComp(path, s, p);
      assert cs + ([c] + Split(path[p..])) == (cs + [c]) + Split(path[p..]);
      cs := cs + [c];
      SkipSplit(path[p..]);
      p := SkipSlashes(path, p);
    }
    if p == |path| {
      assert path[p..] == [];
    }
  }

  /** Whether two components are the same, character by character. */
  method SameComp(a: Comp, b: Comp) returns (same: bool)
    ensures same <==> a == b
  {
    if |a| != |b| {
      return false;
    }
    for j := 0 to |a|
      invariant a[..j] == b[..j]
    {
      if a[j] != b[j] {
        return false;
      }
    }
    return true;
  }

  method CommonPrefix(a: seq<Comp>, b: seq<Comp>) returns (n: nat)
    ensures n == Common(a, b)
  {
    n := 0;
    assert forall i | 0 <= i < Common(a, b) :: a[..Common(a, b)][i] == b[..Common(a, b)][i];
    while n < |a| && n < |b|
      invariant n <= |a| && n <= |b| && n <= Common(a, b)
    {
      var same := SameComp(a[n], b[n]);
      if !same {
        break;
      }
      n := n + 1;
    }
  }

  /** The way up fits, and the way down fits with one character to spare. */
  predicate Fits(ups: nat, down: seq<Comp>, cap: nat) {
    (ups > 0 ==> |Ups(ups)| < cap) && (down != [] ==> |Ups(ups)| + |Join(down)| + 1 < cap)
  }

  lemma {:induction false} FitsIff(a: seq<Comp>, b: seq<Comp>, cap: nat)
    requires cap >= 2
    ensures Fits(|a| - Common(a, b), b[Common(a, b)..], cap) <==>
            |Relative(a, b)| + (if Common(a, b) < |b| then 1 else 0) < cap
  {
    var ups, down := |a| - Common(a, b), b[Common(a, b)..];
    UpsLength(ups);
    if down != [] {
      JoinGrows(down, 1);
      assert Join(down[..1]) == down[0];
    }
  }

  /** sysfs_relpath: the relative path between what it sees of the two absolute paths. It fails exactly if one
      of them is not absolute or the result does not fit, with one character to spare if it ends in a name. */
  method Relpath(from: string, to: string, out: array<char>) returns (r: int)
    modifies out
    ensures r == 0 || r == -1
    ensures var a, b := Seen(Split(from)), Seen(Split(to));
            var n := Common(a, b);
            && (r == 0 <==>
                && out.Length >= 2 && from != [] && to != [] && from[0] == '/' && to[0] == '/'
                && |Relative(a, b)| + (if n < |b| then 1 else 0) < out.Length)
            && (r == 0 ==> CStr(out, Relative(a, b)))
  {
    if out.Length < 2 {
      return -1;
    }
    if from == [] || to == [] || from[0] != '/' || to[0] != '/' {
      return -1;
    }
    var a := SplitComps(from);
    var b := SplitComps(to);
    var n := CommonPrefix(a, b);
    FitsIff(a, b, out.Length);
    var ok, off := GoUp(out, |a| - n);
    if !ok {
      return -1;
    }
    ok, off := GoDown(out, off, b[n..], |a| - n);
    if !ok {
      return -1;
    }
    if off == 0 {
      out[0], out[1] := '.', '\0';
    }
    return 0;
  }

  /** The loop that goes up to the common prefix. */
  method GoUp(out: array<char>, ups: nat) returns (ok: bool, off: nat)
    requires out.Length >= 2
    modifies out
    ensures ok <==> (ups > 0 ==> |Ups(ups)| < out.Length)
    ensures ok ==> off == |Ups(ups)| && CStr(out, Ups(ups))
  {
    off := 0;
    out[0] := '\0';
    var i := 0;
    UpsLength(ups);
    while i < ups
      invariant 0 <= i <= ups && off == |Ups(i)| == 3 * i && CStr(out, Ups(i))
    {
      if off + 3 >= out.Length {
        return false, off;
      }
      Copy(out, off, "../");
      off := off + 3;
      out[off] := '\0';
      i := i + 1;
    }
    return true, off;
  }

  /** The loop that goes down to the target. */
  method GoDown(out: array<char>, start: nat, down: seq<Comp>, ghost ups: nat) returns (ok: bool, off: nat)
    requires start == |Ups(ups)| && CStr(out, Ups(ups))
    modifies out
    ensures ok <==> (down != [] ==> |Ups(ups)| + |Join(down)| + 1 < out.Length)
    ensures ok ==> off == |Ups(ups) + Join(down)| && CStr(out, Ups(ups) + Join(down))
  {
    off := start;
    var i := 0;
    while i < |down|
      invariant 0 <= i <= |down| && off == |Ups(ups) + Before(down, i)| && CStr(out, Ups(ups) + Before(down, i))
      invariant i > 0 ==> |Ups(ups)| + |Join(down[..i])| + 1 < out.Length
    {
      var c := down[i];
      BeforeNext(down, i);
      if off + |c| + 1 >= out.Length {
        JoinGrows(down, i + 1);
        return false, off;
      }
      assert Ups(ups) + Before(down, i) + c == Ups(ups) + Join(down[..i + 1]);
      off := PutComp(out, off, c, i + 1 < |down|, Ups(ups) + Before(down, i));
      i := i + 1;
      assert Ups(ups) + Join(down[..i]) + (if i < |down| then "/" else "") == Ups(ups) + Before(down, i);
    }
    assert down[..|down|] == down;
    return true, off;
  }

  method PutComp(out: array<char>, off: nat, c: Comp, more: bool, ghost pre: string) returns (off': nat)
    requires off == |pre| && CStr(out, pre) && off + |c| + 1 < out.Length
    modifies out
    ensures var s := pre + c + (if more then "/" else ""); off' == |s| && CStr(out, s)
  {
    Copy(out, off, c);
    off' := off + |c|;
    if more {
      out[off'] := '/';
      off' := off' + 1;
    }
    out[off'] := '\0';
  }

  /** What is written before the component at index `i`: the components so far, and a slash if another follows. */
  function Before(down: seq<Comp>, i: nat): string
    requires i <= |down|
  {
    Join(down[..i]) + if 0 < i < |down| then "/" else ""
  }

  lemma {:induction false} BeforeNext(down: seq<Comp>, i: nat)
    requires i < |down|
    ensures Join(down[..i + 1]) == Before(down, i) + down[i]
  {
    var s := down[..i + 1];
    assert s[..|s| - 1] == down[..i] && s[|s| - 1] == down[i];
  }

  lemma {:induction false} JoinGrows(s: seq<Comp>, i: nat)
    requires i <= |s|
    ensures |Join(s[..i])| <= |Join(s)|
    decreases |s| - i
  {
    if i < |s| {
      BeforeNext(s, i);
      JoinGrows(s, i + 1);
    } else {
      assert s[..i] == s;
    }
  }

  /** Which paths the truncation to 32 components leaves alone. */
  lemma {:induction false} ReachedSeen(a: seq<Comp>, b: seq<Comp>)
    ensures Reached(a, Seen(a), Seen(b)) == b <==> (|a| <= 32 && |b| <= 32) || a == b
  {
    var A, B := Seen(a), Seen(b);
    var n := Common(A, B);
    var r := Reached(a, A, B);
    if |a| <= MAX_COMPONENTS {
      ReachedTarget(a, B);
    } else if n == MAX_COMPONENTS {
      assert r == a;
    } else {
      // `r` has the component of `a` at `n`, where the two seen paths differ
      assert r[n] == a[n] == A[n];
      assert n < |B| ==> b[n] == B[n];
    }
  }

  /** The link resolves to its target, for all directories and targets, if and only if both have at most 32
      components or they are the same. */
  lemma {:induction false} RelpathResolves(a: seq<Comp>, b: seq<Comp>)
    requires Ordinary(a) && Ordinary(b)
    ensures Normal(Render(a) + "/" + Relative(Seen(a), Seen(b))) == Render(b) <==>
            (|a| <= 32 && |b| <= 32) || a == b
  {
    var r := Reached(a, Seen(a), Seen(b));
    WalkRelative(a, Seen(a), Seen(b));
    Follow(a, Relative(Seen(a), Seen(b)), r);
    ReachedSeen(a, b);
    SplitRender(b);
    SplitRender(r);
  }

  /** Inputs that do not resolve: a directory of 33 components, and a target of 33 components. */
  lemma {:induction false} TooDeep()
    ensures var d: seq<Comp> := seq(33, _ => "d");
            var x: seq<Comp> := ["x"];
            && Normal(Render(d) + "/" + Relative(Seen(d), Seen(x))) != Render(x)
            && Normal(Render(x) + "/" + Relative(Seen(x), Seen(d))) != Render(d)
  {
    var d: seq<Comp> := seq(33, _ => "d");
    var x: seq<Comp> := ["x"];
    RelpathResolves(d, x);
    RelpathResolves(x, d);
  }
}
