/**
 * The decision of all plugin filters on one candidate plugin: a three-valued
 * vote in which EXCLUDE is a veto (PluginWrapperFilter.decide).
 */
module WrapperFilter {

  datatype Decision = Exclude | NoOpinion | Include

  /** What one filter does when asked about one plugin: it returns a
      decision, throws something the caller recovers from (a runtime
      exception, a checked exception or another non-Error throwable), or
      throws an Error. */
  datatype Vote = Returned(decision: Decision) | Recovered | Fatal

  /** The outcome of asking all filters: a decision, or the Error that
      propagates to the caller. */
  datatype Verdict = Decided(decision: Decision) | Propagated

  /** A vote after which no further filter is asked. */
  predicate Stops(v: Vote) {
    v == Returned(Exclude) || v == Fatal
  }

  /** Reference semantics of asking the filters in extension-list order,
      `acc` being the decision gathered so far (never EXCLUDE). */
  function AggregateFrom(acc: Decision, votes: seq<Vote>): Verdict
    decreases |votes|
  {
    if votes == [] then Decided(acc)
    else match votes[0]
      case Returned(Exclude) => Decided(Exclude)
      case Returned(Include) => AggregateFrom(Include, votes[1..])
      case Returned(NoOpinion) => AggregateFrom(acc, votes[1..])
      case Recovered => AggregateFrom(acc, votes[1..])
      case Fatal => Propagated
  }

  function Aggregate(votes: seq<Vote>): Verdict {
    AggregateFrom(NoOpinion, votes)
  }

  /** Asks each filter in turn; `consulted` is the number of filters asked. */
  method Decide(votes: seq<Vote>) returns (v: Verdict, consulted: nat)
    ensures v == Aggregate(votes)
    ensures consulted <= |votes|
    ensures forall k :: 0 <= k < consulted - 1 ==> !Stops(votes[k])
    ensures consulted < |votes| ==> 0 < consulted && Stops(votes[consulted - 1])
    ensures v == Decided(Exclude) ==> 0 < consulted && votes[consulted - 1] == Returned(Exclude)
    ensures v == Propagated ==> 0 < consulted && votes[consulted - 1] == Fatal
  {
    var result := NoOpinion;
    var i := 0;
    while i < |votes|
      invariant i <= |votes|
      invariant result != Exclude
      invariant AggregateFrom(result, votes[i..]) == Aggregate(votes)
      invariant forall k :: 0 <= k < i ==> !Stops(votes[k])
    {
      assert votes[i..][0] == votes[i] && votes[i..][1..] == votes[i + 1..];
      match votes[i] {
        case Returned(Exclude) =>
          return Decided(Exclude), i + 1;
        case Fatal =>
          return Propagated, i + 1;
        case Returned(Include) =>
          result := Include;
        case Returned(NoOpinion) =>
        case Recovered =>
      }
      i := i + 1;
    }
    v, consulted := Decided(result), i;
  }

  /** The associative combination of two decisions: EXCLUDE absorbs,
      INCLUDE dominates NO_OPINION, NO_OPINION is the identity. */
  function Combine(a: Decision, b: Decision): Decision {
    if a == Exclude || b == Exclude then Exclude
    else if a == Include || b == Include then Include
    else NoOpinion
  }

  /** The decision a vote contributes to the fold; a recovered failure
      contributes nothing. */
  function Contribution(v: Vote): Decision {
    if v.Returned? then v.decision else NoOpinion
  }

  /** Independent reference: the fold of Combine over all votes. */
  function Fold(votes: seq<Vote>): Decision
    decreases |votes|
  {
    if votes == [] then NoOpinion else Combine(Contribution(votes[0]), Fold(votes[1..]))
  }

  lemma {:induction false} FromIsFold(acc: Decision, votes: seq<Vote>)
    requires acc != Exclude
    requires forall k :: 0 <= k < |votes| ==> votes[k] != Fatal
    ensures AggregateFrom(acc, votes) == Decided(Combine(acc, Fold(votes)))
    decreases |votes|
  {
    if votes != [] {
      assert votes[0] != Fatal;
      if votes[0] != Returned(Exclude) {
        FromIsFold(if votes[0] == Returned(Include) then Include else acc, votes[1..]);
      }
    }
  }

  /** Without Errors, the early-returning loop computes the associative fold,
      so its outcome does not depend on the order of the filters. */
  lemma EarlyReturnIsFold(votes: seq<Vote>)
    requires forall k :: 0 <= k < |votes| ==> votes[k] != Fatal
    ensures Aggregate(votes) == Decided(Fold(votes))
  {
    FromIsFold(NoOpinion, votes);
  }

  lemma {:induction false} FoldBySummary(votes: seq<Vote>)
    ensures Fold(votes) == Exclude <==> Returned(Exclude) in votes
    ensures Fold(votes) == Include <==> Returned(Exclude) !in votes && Returned(Include) in votes
    decreases |votes|
  {
    if votes != [] {
      FoldBySummary(votes[1..]);
      assert votes == [votes[0]] + votes[1..];
    }
  }

  /** Swapping the order of the filters does not change the fold. */
  lemma FoldOrderIndependent(votes: seq<Vote>, other: seq<Vote>)
    requires multiset(votes) == multiset(other)
    ensures Fold(votes) == Fold(other)
  {
    FoldBySummary(votes);
    FoldBySummary(other);
    assert forall v :: v in votes <==> v in other by {
      forall v ensures v in votes <==> v in other {
        assert v in votes <==> v in multiset(votes);
        assert v in other <==> v in multiset(other);
      }
    }
  }

  lemma {:induction false} FromNoVotes(acc: Decision, votes: seq<Vote>)
    requires acc != Exclude
    requires forall k :: 0 <= k < |votes| ==> votes[k] == Recovered || votes[k] == Returned(NoOpinion)
    ensures AggregateFrom(acc, votes) == Decided(acc)
    decreases |votes|
  {
    if votes != [] {
      FromNoVotes(acc, votes[1..]);
    }
  }

  /** With no filters, or only filters without an opinion or that failed
      recoverably, the decision is NO_OPINION. */
  lemma NoOpinionByDefault(votes: seq<Vote>)
    requires forall k :: 0 <= k < |votes| ==> votes[k] == Recovered || votes[k] == Returned(NoOpinion)
    ensures Aggregate(votes) == Decided(NoOpinion)
  {
    FromNoVotes(NoOpinion, votes);
  }

  lemma {:induction false} FromExclude(acc: Decision, votes: seq<Vote>)
    requires acc != Exclude
    ensures AggregateFrom(acc, votes) == Decided(Exclude) <==>
      exists k :: 0 <= k < |votes| && votes[k] == Returned(Exclude) && forall j :: 0 <= j < k ==> !Stops(votes[j])
    decreases |votes|
  {
    if votes != [] {
      if !Stops(votes[0]) {
        FromExclude(if votes[0] == Returned(Include) then Include else acc, votes[1..]);
        var rest := votes[1..];
        if exists k :: 0 <= k < |rest| && rest[k] == Returned(Exclude) && forall j :: 0 <= j < k ==> !Stops(rest[j]) {
          var k :| 0 <= k < |rest| && rest[k] == Returned(Exclude) && forall j :: 0 <= j < k ==> !Stops(rest[j]);
          assert votes[k + 1] == Returned(Exclude);
          assert forall j :: 0 <= j < k + 1 ==> !Stops(votes[j]) by {
            forall j | 0 <= j < k + 1 ensures !Stops(votes[j]) {
              if j > 0 { assert votes[j] == rest[j - 1]; }
            }
          }
        }
        if exists k :: 0 <= k < |votes| && votes[k] == Returned(Exclude) && forall j :: 0 <= j < k ==> !Stops(votes[j]) {
          var k :| 0 <= k < |votes| && votes[k] == Returned(Exclude) && forall j :: 0 <= j < k ==> !Stops(votes[j]);
          assert k > 0;
          assert rest[k - 1] == Returned(Exclude);
          assert forall j :: 0 <= j < k - 1 ==> !Stops(rest[j]) by {
            forall j | 0 <= j < k - 1 ensures !Stops(rest[j]) {
              assert rest[j] == votes[j + 1];
            }
          }
        }
      }
    }
  }

  /** EXCLUDE is a veto: the decision is EXCLUDE exactly when some filter
      votes EXCLUDE and no filter before it threw an Error. */
  lemma ExcludeIsVeto(votes: seq<Vote>)
    ensures Aggregate(votes) == Decided(Exclude) <==>
      exists k :: 0 <= k < |votes| && votes[k] == Returned(Exclude) && forall j :: 0 <= j < k ==> !Stops(votes[j])
  {
    FromExclude(NoOpinion, votes);
  }

  lemma {:induction false} FromPropagated(acc: Decision, votes: seq<Vote>)
    requires acc != Exclude
    ensures AggregateFrom(acc, votes) == Propagated <==>
      exists k :: 0 <= k < |votes| && votes[k] == Fatal && forall j :: 0 <= j < k ==> !Stops(votes[j])
    decreases |votes|
  {
    if votes != [] {
      if !Stops(votes[0]) {
        FromPropagated(if votes[0] == Returned(Include) then Include else acc, votes[1..]);
        var rest := votes[1..];
        if exists k :: 0 <= k < |rest| && rest[k] == Fatal && forall j :: 0 <= j < k ==> !Stops(rest[j]) {
          var k :| 0 <= k < |rest| && rest[k] == Fatal && forall j :: 0 <= j < k ==> !Stops(rest[j]);
          assert votes[k + 1] == Fatal;
          assert forall j :: 0 <= j < k + 1 ==> !Stops(votes[j]) by {
            forall j | 0 <= j < k + 1 ensures !Stops(votes[j]) {
              if j > 0 { assert votes[j] == rest[j - 1]; }
            }
          }
        }
        if exists k :: 0 <= k < |votes| && votes[k] == Fatal && forall j :: 0 <= j < k ==> !Stops(votes[j]) {
          var k :| 0 <= k < |votes| && votes[k] == Fatal && forall j :: 0 <= j < k ==> !Stops(votes[j]);
          assert k > 0;
          assert rest[k - 1] == Fatal;
          assert forall j :: 0 <= j < k - 1 ==> !Stops(rest[j]) by {
            forall j | 0 <= j < k - 1 ensures !Stops(rest[j]) {
              assert rest[j] == votes[j + 1];
            }
          }
        }
      }
    }
  }

  /** An Error thrown by a filter propagates out of decide, unless an
      earlier filter already vetoed. */
  lemma ErrorPropagates(votes: seq<Vote>)
    ensures Aggregate(votes) == Propagated <==>
      exists k :: 0 <= k < |votes| && votes[k] == Fatal && forall j :: 0 <= j < k ==> !Stops(votes[j])
  {
    FromPropagated(NoOpinion, votes);
  }

  lemma {:induction false} FromInclude(acc: Decision, votes: seq<Vote>)
    requires acc != Exclude
    ensures AggregateFrom(acc, votes) == Decided(Include) <==>
      (forall k :: 0 <= k < |votes| ==> !Stops(votes[k])) && (acc == Include || Returned(Include) in votes)
    decreases |votes|
  {
    if votes != [] {
      if !Stops(votes[0]) {
        FromInclude(if votes[0] == Returned(Include) then Include else acc, votes[1..]);
        assert votes == [votes[0]] + votes[1..];
      }
    }
  }

  /** The decision is INCLUDE exactly when every filter was consulted, none
      vetoed or threw an Error, and at least one voted INCLUDE; a filter that
      failed recoverably counts as no vote. */
  lemma IncludeIff(votes: seq<Vote>)
    ensures Aggregate(votes) == Decided(Include) <==>
      (forall k :: 0 <= k < |votes| ==> !Stops(votes[k])) && Returned(Include) in votes
  {
    FromInclude(NoOpinion, votes);
  }

  lemma {:induction false} FromRecoveredSkipped(acc: Decision, votes: seq<Vote>, k: nat)
    requires acc != Exclude
    requires k < |votes| && votes[k] == Recovered
    ensures AggregateFrom(acc, votes) == AggregateFrom(acc, votes[..k] + votes[k + 1..])
    decreases k
  {
    if k > 0 {
      var rest := votes[..k] + votes[k + 1..];
      assert rest[0] == votes[0];
      assert rest[1..] == votes[1..][..k - 1] + votes[1..][k..];
      if !Stops(votes[0]) {
        FromRecoveredSkipped(if votes[0] == Returned(Include) then Include else acc, votes[1..], k - 1);
      }
    } else {
      assert votes[..k] + votes[k + 1..] == votes[1..];
    }
  }

  /** A filter that fails recoverably is as if it were not installed: the
      filters after it are still consulted with the same outcome. */
  lemma RecoveredIsNoVote(votes: seq<Vote>, k: nat)
    requires k < |votes| && votes[k] == Recovered
    ensures Aggregate(votes) == Aggregate(votes[..k] + votes[k + 1..])
  {
    FromRecoveredSkipped(NoOpinion, votes, k);
  }
}
