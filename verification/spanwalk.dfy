/** The generator's walks over a flat token list: each child (a group, a
    var-data field, a composite member) is a run of `componentTokenCount`
    tokens, and the walk steps from one child's first token to the next.
    The group and var-data walks throw IllegalStateException at a child
    whose first token has the wrong signal; the composite walk checks nothing. */
module SpanWalk {
  import opened Errors

  datatype Signal =
    | BeginMessage | EndMessage | BeginComposite | EndComposite | BeginField | EndField
    | BeginGroup | EndGroup | BeginEnum | ValidValue | EndEnum | BeginSet | Choice | EndSet
    | BeginVarData | EndVarData | Encoding

  /** The parts of a token a walk looks at. */
  datatype Token = Token(signal: Signal, name: string, componentTokenCount: nat)

  /** The children a walk generated code for, by the index of their first
      token, or the index of the token it threw IllegalStateException at. */
  datatype Outcome = Visited(starts: seq<nat>) | IllegalState(at: nat)

  /** Every token spans at least itself, so each step moves forward. */
  predicate WellCounted(tokens: seq<Token>)
  {
    forall k :: 0 <= k < |tokens| ==> tokens[k].componentTokenCount >= 1
  }

  function Prefixed(done: seq<nat>, rest: Outcome): Outcome
  {
    if rest.Visited? then Visited(done + rest.starts) else rest
  }

  /** The walk from index i: visit the child there, then go on at the index
      just past its span; the first token of each child must carry `expected`
      when one is given. */
  function Starts(tokens: seq<Token>, i: nat, expected: Option<Signal>): Outcome
    requires WellCounted(tokens)
    decreases |tokens| - i
  {
    if i >= |tokens| then Visited([])
    else if expected.Some? && tokens[i].signal != expected.value then IllegalState(i)
    else Prefixed([i], Starts(tokens, i + tokens[i].componentTokenCount, expected))
  }

  lemma PrefixedNothing(rest: Outcome)
    ensures Prefixed([], rest) == rest
  {
    if rest.Visited? {
      assert [] + rest.starts == rest.starts;
    }
  }

  /** Visiting the child at i moves it from the walk still to come to the
      children already visited. */
  lemma WalkAdvances(tokens: seq<Token>, i: nat, expected: Option<Signal>, done: seq<nat>)
    requires WellCounted(tokens) && i < |tokens|
    requires expected.None? || tokens[i].signal == expected.value
    ensures Prefixed(done, Starts(tokens, i, expected)) ==
      Prefixed(done + [i], Starts(tokens, i + tokens[i].componentTokenCount, expected))
  {
    var rest := Starts(tokens, i + tokens[i].componentTokenCount, expected);
    assert Starts(tokens, i, expected) == Prefixed([i], rest);
    if rest.Visited? {
      assert done + ([i] + rest.starts) == (done + [i]) + rest.starts;
    }
  }

  /** A child with the wrong signal ends the walk there. */
  lemma WalkStops(tokens: seq<Token>, i: nat, expected: Option<Signal>, done: seq<nat>)
    requires WellCounted(tokens) && i < |tokens|
    requires expected.Some? && tokens[i].signal != expected.value
    ensures Prefixed(done, Starts(tokens, i, expected)) == IllegalState(i)
  {
  }

  /** Past the end of the list there is nothing more to visit. */
  lemma WalkEnds(tokens: seq<Token>, i: nat, expected: Option<Signal>, done: seq<nat>)
    requires WellCounted(tokens) && i >= |tokens|
    ensures Prefixed(done, Starts(tokens, i, expected)) == Visited(done)
  {
    assert done + [] == done;
  }

  /** The loop of `generateVarData` (expected BEGIN_VAR_DATA), of
      `generateGroups` (expected BEGIN_GROUP) and of the composite walk
      (nothing expected): `i` starts at 0 and advances by the span of the
      child at `i` while it is below the size of the list. */
  method Walk(tokens: seq<Token>, expected: Option<Signal>) returns (r: Outcome)
    requires WellCounted(tokens)
    ensures r == Starts(tokens, 0, expected)
  {
    var visited: seq<nat> := [];
    var i: nat := 0;
    PrefixedNothing(Starts(tokens, 0, expected));
    while i < |tokens|
      invariant Starts(tokens, 0, expected) == Prefixed(visited, Starts(tokens, i, expected))
      decreases |tokens| - i
    {
      if expected.Some? && tokens[i].signal != expected.value {
        WalkStops(tokens, i, expected, visited);
        return IllegalState(i);
      }
      WalkAdvances(tokens, i, expected, visited);
      visited := visited + [i];
      i := i + tokens[i].componentTokenCount;
    }
    WalkEnds(tokens, i, expected, visited);
    return Visited(visited);
  }

  /** The walk that checks nothing never throws. */
  lemma {:induction false} ChainVisited(tokens: seq<Token>, i: nat)
    requires WellCounted(tokens)
    ensures Starts(tokens, i, None).Visited?
    decreases |tokens| - i
  {
    if i < |tokens| {
      ChainVisited(tokens, i + tokens[i].componentTokenCount);
    }
  }

  /** One step of the walk that checks nothing: the child at i, then the rest. */
  lemma ChainStep(tokens: seq<Token>, i: nat)
    requires WellCounted(tokens) && i < |tokens|
    ensures Starts(tokens, i + tokens[i].componentTokenCount, None).Visited?
    ensures Starts(tokens, i, None) ==
      Visited([i] + Starts(tokens, i + tokens[i].componentTokenCount, None).starts)
  {
    ChainVisited(tokens, i + tokens[i].componentTokenCount);
  }

  /** Every child the walk from i visits lies in [i, |tokens|), and it visits
      none exactly when i is past the end. */
  lemma {:induction false} ChainBounds(tokens: seq<Token>, i: nat)
    requires WellCounted(tokens)
    ensures Starts(tokens, i, None).Visited?
    ensures var c := Starts(tokens, i, None).starts;
      (|c| == 0 <==> i >= |tokens|) && (forall k :: 0 <= k < |c| ==> i <= c[k] < |tokens|)
    decreases |tokens| - i
  {
    ChainVisited(tokens, i);
    if i < |tokens| {
      var next := i + tokens[i].componentTokenCount;
      ChainStep(tokens, i);
      ChainBounds(tokens, next);
      var rest := Starts(tokens, next, None).starts;
      var c := Starts(tokens, i, None).starts;
      assert forall k :: 1 <= k < |c| ==> c[k] == rest[k - 1];
    }
  }

  /** The children follow one another: the first is at i, each starts where
      the one before it ends, and the last reaches the end of the list. */
  lemma {:induction false} ChainLinks(tokens: seq<Token>, i: nat)
    requires WellCounted(tokens)
    ensures Starts(tokens, i, None).Visited?
    ensures var c := Starts(tokens, i, None).starts;
      (|c| > 0 ==> c[0] == i && c[|c| - 1] < |tokens| &&
                   c[|c| - 1] + tokens[c[|c| - 1]].componentTokenCount >= |tokens|) &&
      (forall k :: 0 <= k < |c| - 1 ==> c[k] < |tokens| && c[k + 1] == c[k] + tokens[c[k]].componentTokenCount)
    decreases |tokens| - i
  {
    ChainVisited(tokens, i);
    if i < |tokens| {
      var next := i + tokens[i].componentTokenCount;
      ChainStep(tokens, i);
      ChainLinks(tokens, next);
      ChainBounds(tokens, next);
      var rest := Starts(tokens, next, None).starts;
      var c := Starts(tokens, i, None).starts;
      assert forall k :: 1 <= k < |c| ==> c[k] == rest[k - 1];
    }
  }

  /** The children's first tokens strictly increase. */
  lemma {:induction false} ChainIncreasing(tokens: seq<Token>, i: nat)
    requires WellCounted(tokens)
    ensures Starts(tokens, i, None).Visited?
    ensures var c := Starts(tokens, i, None).starts;
      forall j, k :: 0 <= j < k < |c| ==> c[j] < c[k]
    decreases |tokens| - i
  {
    ChainVisited(tokens, i);
    if i < |tokens| {
      var next := i + tokens[i].componentTokenCount;
      ChainStep(tokens, i);
      ChainIncreasing(tokens, next);
      ChainBounds(tokens, next);
      var rest := Starts(tokens, next, None).starts;
      var c := Starts(tokens, i, None).starts;
      assert forall k :: 1 <= k < |c| ==> c[k] == rest[k - 1];
    }
  }

  /** The walk that checks nothing visits the children one after the other:
      it starts at i, each child starts where the one before it ends, every
      visited index lies inside the list, the indexes strictly increase, and
      the last child reaches the end of the list. */
  lemma ChainLayout(tokens: seq<Token>, i: nat)
    requires WellCounted(tokens)
    ensures Starts(tokens, i, None).Visited?
    ensures var c := Starts(tokens, i, None).starts;
      (|c| == 0 <==> i >= |tokens|) &&
      (forall k :: 0 <= k < |c| ==> i <= c[k] < |tokens|)
    ensures var c := Starts(tokens, i, None).starts;
      (|c| > 0 ==> c[0] == i && c[|c| - 1] + tokens[c[|c| - 1]].componentTokenCount >= |tokens|) &&
      (forall k :: 0 <= k < |c| - 1 ==> c[k + 1] == c[k] + tokens[c[k]].componentTokenCount) &&
      (forall j, k :: 0 <= j < k < |c| ==> c[j] < c[k])
  {
    ChainBounds(tokens, i);
    ChainLinks(tokens, i);
    ChainIncreasing(tokens, i);
  }

  /** A checking walk completes exactly when every child of the walk that
      checks nothing starts with the expected signal, and then visits the
      same children. */
  lemma {:induction false} CheckedCompletes(tokens: seq<Token>, i: nat, sig: Signal)
    requires WellCounted(tokens)
    ensures Starts(tokens, i, None).Visited?
    ensures var c := Starts(tokens, i, None).starts;
      var r := Starts(tokens, i, Some(sig));
      (forall k :: 0 <= k < |c| ==> c[k] < |tokens|) &&
      (r.Visited? <==> forall k :: 0 <= k < |c| ==> tokens[c[k]].signal == sig) &&
      (r.Visited? ==> r.starts == c)
    decreases |tokens| - i
  {
    ChainBounds(tokens, i);
    if i < |tokens| {
      var next := i + tokens[i].componentTokenCount;
      ChainStep(tokens, i);
      CheckedCompletes(tokens, next, sig);
      var c := Starts(tokens, i, None).starts;
      var rest := Starts(tokens, next, None).starts;
      assert forall k :: 1 <= k < |c| ==> c[k] == rest[k - 1];
      if tokens[i].signal != sig {
        assert c[0] == i;
      } else {
        assert Starts(tokens, i, Some(sig)) == Prefixed([i], Starts(tokens, next, Some(sig)));
        assert c[0] == i && |c| == |rest| + 1;
        assert forall k :: 0 <= k < |rest| ==> c[k + 1] == rest[k];
      }
    }
  }

  /** A checking walk that throws does so at the first child, in the order of
      the walk that checks nothing, whose first token has the wrong signal. */
  lemma {:induction false} CheckedStops(tokens: seq<Token>, i: nat, sig: Signal)
    requires WellCounted(tokens)
    ensures Starts(tokens, i, None).Visited?
    ensures var c := Starts(tokens, i, None).starts;
      var r := Starts(tokens, i, Some(sig));
      (forall k :: 0 <= k < |c| ==> c[k] < |tokens|) &&
      (r.IllegalState? ==>
        exists k :: 0 <= k < |c| && c[k] == r.at && tokens[r.at].signal != sig &&
          forall j :: 0 <= j < k ==> tokens[c[j]].signal == sig)
    decreases |tokens| - i
  {
    ChainBounds(tokens, i);
    if i < |tokens| {
      var next := i + tokens[i].componentTokenCount;
      ChainStep(tokens, i);
      CheckedStops(tokens, next, sig);
      var c := Starts(tokens, i, None).starts;
      var rest := Starts(tokens, next, None).starts;
      var r := Starts(tokens, i, Some(sig));
      if tokens[i].signal != sig {
        assert c[0] == i;
      } else {
        var rr := Starts(tokens, next, Some(sig));
        assert r == Prefixed([i], rr);
        if rr.IllegalState? {
          var k :| 0 <= k < |rest| && rest[k] == rr.at && tokens[rr.at].signal != sig &&
                   forall j :: 0 <= j < k ==> tokens[rest[j]].signal == sig;
          assert c[k + 1] == rr.at;
          assert forall j :: 1 <= j < k + 1 ==> c[j] == rest[j - 1];
        }
      }
    }
  }

  /** A checking walk is the walk that checks nothing, cut short at the
      first child with the wrong signal: it completes exactly when every
      child starts with the expected signal, and then visits the same
      children; otherwise it throws at the first child that does not. */
  lemma CheckedWalk(tokens: seq<Token>, i: nat, sig: Signal)
    requires WellCounted(tokens)
    ensures Starts(tokens, i, None).Visited?
    ensures var c := Starts(tokens, i, None).starts;
      forall k :: 0 <= k < |c| ==> c[k] < |tokens|
    ensures var c := Starts(tokens, i, None).starts;
      var r := Starts(tokens, i, Some(sig));
      (r.Visited? <==> forall k :: 0 <= k < |c| ==> tokens[c[k]].signal == sig) &&
      (r.Visited? ==> r.starts == c) &&
      (r.IllegalState? ==>
        exists k :: 0 <= k < |c| && c[k] == r.at && tokens[r.at].signal != sig &&
          forall j :: 0 <= j < k ==> tokens[c[j]].signal == sig)
  {
    CheckedCompletes(tokens, i, sig);
    CheckedStops(tokens, i, sig);
  }
}
