/** fs/namei.c: normalising a path into a buffer of fixed size. */
module Namei {
  import opened Paths

  /** The buffer holds the string, with the terminating NUL. */
  ghost predicate CStr(out: array<char>, s: string)
    reads out
  {
    |s| < out.Length && out[..|s|] == s && out[|s|] == '\0'
  }

  /** The buffer holds the path with the components `stack`, and `len` is its length. */
  ghost predicate Holds(out: array<char>, len: nat, stack: seq<Comp>)
    reads out
  {
    len == |Render(stack)| && CStr(out, Render(stack))
  }

  /** Every path on the way fits the buffer. */
  predicate AllFit(stack: seq<Comp>, cs: seq<Comp>, cap: nat)
    decreases |cs|
  {
    cs == [] || (var next := Step(stack, cs[0]);
                 (|next| > |stack| ==> |Render(next)| < cap) && AllFit(next, cs[1..], cap))
  }

  /** The path after the first `i` components fits the buffer. */
  predicate FitAt(stack: seq<Comp>, cs: seq<Comp>, cap: nat, i: nat)
    requires i <= |cs|
  {
    |Render(Walk(stack, cs[..i]))| < cap
  }

  /** What fails only at a component that goes down fails exactly if some path on the way is too long. */
  lemma {:induction false} AllFitIff(stack: seq<Comp>, cs: seq<Comp>, cap: nat)
    requires |Render(stack)| < cap
    ensures AllFit(stack, cs, cap) <==> forall i | 0 <= i <= |cs| :: FitAt(stack, cs, cap, i)
    decreases |cs|
  {
    assert cs[..0] == [];
    if cs != [] {
      var next := Step(stack, cs[0]);
      StepShorter(stack, cs[0]);
      forall i | 0 <= i < |cs|
        ensures FitAt(next, cs[1..], cap, i) <==> FitAt(stack, cs, cap, i + 1)
      {
        assert cs[..i + 1][0] == cs[0] && cs[..i + 1][1..] == cs[1..][..i];
      }
      assert cs[1..][..0] == [];
      if |Render(next)| < cap {
        AllFitIff(next, cs[1..], cap);
        LaterFit(stack, cs, cap, next);
      } else {
        assert !FitAt(stack, cs, cap, 1) by {
          assert !FitAt(next, cs[1..], cap, 0);
        }
      }
    }
  }

  lemma {:induction false} LaterFit(stack: seq<Comp>, cs: seq<Comp>, cap: nat, next: seq<Comp>)
    requires cs != [] && FitAt(stack, cs, cap, 0)
    requires forall i | 0 <= i < |cs| :: FitAt(next, cs[1..], cap, i) <==> FitAt(stack, cs, cap, i + 1)
    ensures (forall i | 0 <= i <= |cs| :: FitAt(stack, cs, cap, i)) <==>
            (forall i | 0 <= i <= |cs[1..]| :: FitAt(next, cs[1..], cap, i))
  {
    if forall i | 0 <= i <= |cs[1..]| :: FitAt(next, cs[1..], cap, i) {
      forall i | 0 <= i <= |cs|
        ensures FitAt(stack, cs, cap, i)
      {
        assert i > 0 ==> FitAt(next, cs[1..], cap, i - 1);
      }
    }
    if forall i | 0 <= i <= |cs| :: FitAt(stack, cs, cap, i) {
      forall i | 0 <= i <= |cs[1..]|
        ensures FitAt(next, cs[1..], cap, i)
      {
        assert FitAt(stack, cs, cap, i + 1);
      }
    }
  }

  /** A step that does not go down makes the path no longer. */
  lemma {:induction false} StepShorter(stack: seq<Comp>, c: Comp)
    ensures |Step(stack, c)| <= |stack| ==> |Render(Step(stack, c))| <= |Render(stack)|
  {
    if c == ".." && stack != [] {
      var n := |stack| - 1;
      assert stack == stack[..n] + [stack[n]];
      RenderMore(stack[..n], stack[n]);
    }
  }

  lemma {:induction false} RenderMore(stack: seq<Comp>, c: Comp)
    ensures Render(stack + [c]) == (if stack == [] then "" else Render(stack)) + "/" + c
  {
    assert (stack + [c])[..|stack|] == stack && (stack + [c])[|stack|] == c;
    assert Render1(stack + [c]) == Render1(stack) + "/" + c;
  }

  lemma {:induction false} RenderLast(stack: seq<Comp>)
    requires stack != []
    ensures Render(stack)[|Render(stack)| - 1] != '/'
    ensures |Render(stack)| >= 2
  {
  }

  /** while (*p == '/') p++ */
  method SkipSlashes(path: string, i: nat) returns (j: nat)
    requires i <= |path|
    ensures i <= j <= |path| && path[j..] == Skip(path[i..])
  {
    j := i;
    while j < |path| && path[j] == '/'
      invariant i <= j <= |path| && Skip(path[j..]) == Skip(path[i..])
    {
      assert path[j..][1..] == path[j + 1..];
      j := j + 1;
    }
  }

  /** while (*p && *p != '/') p++ */
  method FindSlash(path: string, i: nat) returns (j: nat)
    requires i <= |path|
    ensures j == i + RunLen(path[i..])
  {
    j := i;
    while j < |path| && path[j] != '/'
      invariant i <= j <= |path| && i + RunLen(path[i..]) == j + RunLen(path[j..])
    {
      assert path[j..][1..] == path[j + 1..];
      j := j + 1;
    }
  }

  /** vfs_append_component, first call: the root */
  method AppendRoot(out: array<char>) returns (ok: bool, len: nat)
    modifies out
    ensures ok <==> out.Length >= 2
    ensures ok ==> Holds(out, len, [])
  {
    if out.Length < 2 {
      return false, 0;
    }
    out[0], out[1] := '/', '\0';
    return true, 1;
  }

  /** vfs_append_component: succeeds exactly if the longer path fits */
  method AppendComponent(out: array<char>, len: nat, c: Comp, ghost stack: seq<Comp>) returns (ok: bool, len': nat)
    requires Holds(out, len, stack)
    modifies out
    ensures ok <==> |Render(stack + [c])| < out.Length
    ensures ok ==> Holds(out, len', stack + [c])
  {
    RenderMore(stack, c);
    if stack != [] {
      RenderLast(stack);
    }
    len' := len;
    if len + 1 >= out.Length {
      return false, len';
    }
    if out[len - 1] != '/' {
      out[len'] := '/';
      len' := len' + 1;
      out[len'] := '\0';
    }
    if len' + |c| >= out.Length {
      return false, len';
    }
    assert out[..len'] == (if stack == [] then "" else Render(stack)) + "/";
    Copy(out, len', c);
    len' := len' + |c|;
    out[len'] := '\0';
    return true, len';
  }

  /** memcpy(out + at, s, |s|) */
  method Copy(out: array<char>, at: nat, s: string)
    requires at + |s| <= out.Length
    modifies out
    ensures out[..at + |s|] == old(out[..at]) + s
    ensures out[at + |s|..] == old(out[at + |s|..])
  {
    for k := 0 to |s|
      invariant out[..at + k] == old(out[..at]) + s[..k]
      invariant out[at + k..] == old(out[at + k..])
    {
      out[at + k] := s[k];
      assert out[..at + k + 1] == old(out[..at]) + s[..k] + [s[k]];
      assert s[..k + 1] == s[..k] + [s[k]];
    }
  }

  /** The loop of vfs_pop_component: the slash before the last component. */
  method LastSlash(out: array<char>, len: nat, ghost stem: string, ghost c: Comp) returns (i: nat)
    requires len <= out.Length && out[..len] == stem + "/" + c
    ensures i == |stem|
  {
    forall k | |stem| < k < len
      ensures out[k] != '/'
    {
      assert out[..len][k] == c[k - |stem| - 1] && c[k - |stem| - 1] in c;
    }
    assert out[..len][|stem|] == '/';
    i := len - 1;
    while i > 0 && out[i] != '/'
      invariant |stem| <= i < len
    {
      i := i - 1;
    }
  }

  /** vfs_pop_component: the parent directory; the root stays */
  method PopComponent(out: array<char>, len: nat, ghost stack: seq<Comp>) returns (len': nat)
    requires Holds(out, len, stack)
    modifies out
    ensures Holds(out, len', if stack == [] then [] else stack[..|stack| - 1])
  {
    if stack != [] {
      RenderLast(stack);
    }
    if len <= 1 {
      out[0], out[1] := '/', '\0';
      return 1;
    }
    ghost var up, c := stack[..|stack| - 1], stack[|stack| - 1];
    assert stack == up + [c];
    RenderMore(up, c);
    ghost var stem := if up == [] then "" else Render(up);
    assert Render(stack) == stem + "/" + c;
    var i := LastSlash(out, len, stem, c);
    assert out[..i] == out[..len][..i];
    if i == 0 {
      out[1] := '\0';
      assert out[..1] == "/";
      return 1;
    }
    out[i] := '\0';
    return i;
  }

  /** vfs_normalize_path: the normal form of the path, terminated, within the buffer. It fails exactly if the
      buffer is too small for the root or for one of the paths on the way. */
  method NormalizePath(path: string, out: array<char>) returns (ok: bool)
    modifies out
    ensures ok <==> out.Length >= 2 && forall i | 0 <= i <= |Split(path)| :: FitAt([], Split(path), out.Length, i)
    ensures ok ==> CStr(out, Normal(path))
  {
    if out.Length < 2 {
      return false;
    }
    out[0] := '\0';
    var p := SkipSlashes(path, 0);
    assert path[0..] == path;
    var len;
    ok, len := AppendRoot(out);
    if !ok {
      return false;
    }
    ghost var stack: seq<Comp> := [];
    AllFitIff([], Split(path), out.Length);
    SkipSplit(path);
    while p < |path|
      invariant p <= |path| && path[p..] == Skip(path[p..]) && Holds(out, len, stack)
      invariant Walk(stack, Split(path[p..])) == Walk([], Split(path))
      invariant AllFit([], Split(path), out.Length) <==> AllFit(stack, Split(path[p..]), out.Length)
      decreases |path| - p
    {
      var s := p;
      p := FindSlash(path, p);
      var c: Comp := NextComp(path, s, p);
      ok, len := Apply(out, len, c, stack);
      if !ok {
        return false;
      }
      stack := Step(stack, c);
      SkipSplit(path[p..]);
      p := SkipSlashes(path, p);
    }
    ok := true;
  }

  /** One component applied to the path in the buffer. */
  method Apply(out: array<char>, len: nat, c: Comp, ghost stack: seq<Comp>) returns (ok: bool, len': nat)
    requires Holds(out, len, stack)
    modifies out
    ensures ok <==> |Step(stack, c)| > |stack| ==> |Render(Step(stack, c))| < out.Length
    ensures ok ==> Holds(out, len', Step(stack, c))
  {
    if |c| == 1 && c[0] == '.' {
      assert c == ".";
      return true, len;
    }
    if |c| == 2 && c[0] == '.' && c[1] == '.' {
      assert c == "..";
      len' := PopComponent(out, len, stack);
      return true, len';
    }
    ok, len' := AppendComponent(out, len, c, stack);
  }

  /** The component between two positions that the walk has found. */
  method NextComp(path: string, s: nat, p: nat) returns (c: Comp)
    requires s < |path| && path[s..] == Skip(path[s..]) && p == s + RunLen(path[s..])
    ensures s < p <= |path| && c == path[s..p] && Split(path[s..]) == [c] + Split(path[p..])
  {
    assert path[s..][..p - s] == path[s..p] && path[s..][p - s..] == path[p..];
    c := path[s..p];
  }
}
