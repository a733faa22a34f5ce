/**
 * The `do { x = random() } while (x === avoid)` retry loops of both engines. The random values a
 * loop would see are passed in as a sequence of draws.
 */
module Draws {

  /** The retry loop stops on these draws: some draw differs from `avoid`. */
  predicate StopsAvoiding(draws: seq<nat>, avoid: nat)
  {
    exists j :: 0 <= j < |draws| && draws[j] != avoid
  }

  lemma StopsAvoidingTail(draws: seq<nat>, avoid: nat)
    requires StopsAvoiding(draws, avoid) && draws[0] == avoid
    ensures StopsAvoiding(draws[1..], avoid)
  {
    var j :| 0 <= j < |draws| && draws[j] != avoid;
    assert draws[1..][j - 1] == draws[j];
  }

  /** Position of the draw the retry loop keeps: the first one that differs from `avoid`. */
  function FirstOther(draws: seq<nat>, avoid: nat): (k: nat)
    requires StopsAvoiding(draws, avoid)
    ensures k < |draws| && draws[k] != avoid
    ensures forall j :: 0 <= j < k ==> draws[j] == avoid
  {
    if draws[0] != avoid then 0
    else
      StopsAvoidingTail(draws, avoid);
      1 + FirstOther(draws[1..], avoid)
  }

  /** The retry loop itself: draws until a value other than `avoid` comes up. */
  method DrawUntilOther(draws: seq<nat>, avoid: nat) returns (k: nat)
    requires StopsAvoiding(draws, avoid)
    ensures k < |draws| && draws[k] != avoid
    ensures forall j :: 0 <= j < k ==> draws[j] == avoid
    ensures k == FirstOther(draws, avoid)
  {
    k := 0;
    while draws[k] == avoid
      invariant k < |draws|
      invariant forall j :: 0 <= j < k ==> draws[j] == avoid
      invariant exists j :: k <= j < |draws| && draws[j] != avoid
      decreases |draws| - k
    {
      k := k + 1;
    }
  }

  /** With a single candidate index every draw is that index, so avoiding it never succeeds. */
  lemma SingleCandidateNeverStops(draws: seq<nat>)
    requires forall j :: 0 <= j < |draws| ==> draws[j] < 1
    ensures !StopsAvoiding(draws, 0)
  {
  }

  /** With at least two candidates a draw sequence that stops exists. */
  lemma TwoCandidatesCanStop(n: nat, avoid: nat)
    requires 2 <= n && avoid < n
    ensures StopsAvoiding([(avoid + 1) % n], avoid)
    ensures (avoid + 1) % n < n
  {
    assert [(avoid + 1) % n][0] == (avoid + 1) % n;
  }
}
