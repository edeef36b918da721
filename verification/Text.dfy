/** Characters, and lists with some of their members left out. */
module Text {
  /** White space, in the sense a Unicode regular expression gives it. */
  predicate IsSpace(c: char) {
    || '\t' <= c <= '\r' || '\U{1c}' <= c <= ' ' || c == '\U{85}' || c == '\U{a0}' || c == '\U{1680}'
    || '\U{2000}' <= c <= '\U{200a}' || c == '\U{2028}' || c == '\U{2029}' || c == '\U{202f}' || c == '\U{205f}'
    || c == '\U{3000}'
  }

  /** `kept` is exactly the members of `all` that pass, in their order; `at` says where each stood. */
  ghost predicate IsFilter<T(!new)>(all: seq<T>, kept: seq<T>, at: seq<nat>, passes: T -> bool) {
    && |at| == |kept|
    && (forall i :: 0 <= i < |at| ==> at[i] < |all| && kept[i] == all[at[i]] && passes(all[at[i]]))
    && (forall i, j :: 0 <= i < j < |at| ==> at[i] < at[j])
    && (forall n :: 0 <= n < |all| && passes(all[n]) ==> n in at)
  }

  lemma FilterOfNone<T(!new)>(passes: T -> bool)
    ensures IsFilter([], [], [], passes)
  {
  }

  lemma FilterPasses<T(!new)>(all: seq<T>, kept: seq<T>, at: seq<nat>, passes: T -> bool, x: T)
    requires IsFilter(all, kept, at, passes) && passes(x)
    ensures IsFilter(all + [x], kept + [x], at + [|all|], passes)
  {
    var more := at + [|all|];
    assert more[|at|] == |all|;
    forall i | 0 <= i < |more|
      ensures more[i] < |all| + 1 && (kept + [x])[i] == (all + [x])[more[i]] && passes((all + [x])[more[i]])
    {
      if i < |at| {
        assert at[i] < |all|;
      }
    }
    forall n | 0 <= n < |all| + 1 && passes((all + [x])[n])
      ensures n in more
    {
      if n < |all| {
        assert passes(all[n]) && n in at;
      }
    }
  }

  lemma FilterSkips<T(!new)>(all: seq<T>, kept: seq<T>, at: seq<nat>, passes: T -> bool, x: T)
    requires IsFilter(all, kept, at, passes) && !passes(x)
    ensures IsFilter(all + [x], kept, at, passes)
  {
    forall n | 0 <= n < |all| + 1 && passes((all + [x])[n])
      ensures n in at
    {
      assert passes(all[n]);
    }
  }

  lemma FilterGrows<T(!new)>(all: seq<T>, kept: seq<T>, at: seq<nat>, passes: T -> bool, x: T) returns (more: seq<nat>)
    requires IsFilter(all, kept, at, passes)
    ensures IsFilter(all + [x], if passes(x) then kept + [x] else kept, more, passes)
  {
    hide IsFilter;
    if passes(x) {
      FilterPasses(all, kept, at, passes, x);
      more := at + [|all|];
    } else {
      FilterSkips(all, kept, at, passes, x);
      more := at;
    }
  }
}
