/** The free-use quota both gated handlers keep on the user record: three uses,
    counted in `analysisCount`, unless the account has `unlimitedAnalysis`. */
module Quota {
  /** The uses a limited account gets. */
  const FreeUses: int := 3

  /** The quota part of a user record. The count is a plain number: the
      handlers only compare it with 3, add one to it and subtract it from 3. */
  datatype Account = Account(analysisCount: int, unlimitedAnalysis: bool)

  /** The message of a request the quota turns away. */
  const LimitMessage: string :=
    "You have reached the maximum number of analyses (3). Please upgrade your account for more analyses."

  /** What `remainingAnalyses` reports: the word 'unlimited', or a number. */
  datatype Remaining = Unlimited | Left(n: int)

  /** The gate `!user.unlimitedAnalysis && user.analysisCount >= 3`. */
  predicate Exhausted(u: Account)
    ensures Exhausted(u) <==> RemainingOf(u).Left? && RemainingOf(u).n <= 0
  {
    !u.unlimitedAnalysis && u.analysisCount >= FreeUses
  }

  /** The record after a successful use: one more use on a limited account,
      none on an unlimited one. */
  function Charge(u: Account): (r: Account)
    ensures r.unlimitedAnalysis == u.unlimitedAnalysis
    ensures u.unlimitedAnalysis ==> r == u
    ensures !u.unlimitedAnalysis ==> r.analysisCount == u.analysisCount + 1
    ensures !u.unlimitedAnalysis ==> RemainingOf(r) == Left(RemainingOf(u).n - 1)
  {
    if u.unlimitedAnalysis then u else u.(analysisCount := u.analysisCount + 1)
  }

  /** `user.unlimitedAnalysis ? 'unlimited' : 3 - user.analysisCount`. */
  function RemainingOf(u: Account): (r: Remaining)
    ensures r.Unlimited? <==> u.unlimitedAnalysis
    ensures r.Left? ==> r.n + u.analysisCount == FreeUses
  {
    if u.unlimitedAnalysis then Unlimited else Left(FreeUses - u.analysisCount)
  }

  /** An admitted limited account with a count that never went negative has
      between none and two uses left once this one is charged. */
  lemma RemainingAfterAdmission(u: Account)
    requires !Exhausted(u) && !u.unlimitedAnalysis && u.analysisCount >= 0
    ensures RemainingOf(Charge(u)).Left?
    ensures 0 <= RemainingOf(Charge(u)).n <= FreeUses - 1
  {
  }

  /** The third use of a fresh account leaves nothing, and the next request is
      turned away. */
  lemma ThirdUseExhausts(u: Account)
    requires !u.unlimitedAnalysis && u.analysisCount == 2
    ensures !Exhausted(u)
    ensures RemainingOf(Charge(u)) == Left(0)
    ensures Exhausted(Charge(u))
  {
  }

  /** An unlimited account is never turned away and never charged. */
  lemma UnlimitedIsFree(u: Account)
    requires u.unlimitedAnalysis
    ensures !Exhausted(u) && Charge(u) == u && RemainingOf(u) == Unlimited
  {
  }

  /** `n` requests in a row, each succeeding when the gate lets it through:
      how many were served and the record afterwards. */
  function Serve(u: Account, n: nat): (Account, nat)
    decreases n
  {
    if n == 0 then (u, 0)
    else if Exhausted(u) then Serve(u, n - 1)
    else
      var (after, served) := Serve(Charge(u), n - 1);
      (after, served + 1)
  }

  function Min(a: int, b: int): int {
    if a <= b then a else b
  }

  /** A limited account that has used `c` of its uses serves at most `3 - c`
      more requests, however many arrive; an unlimited one serves them all
      and its count never moves. */
  lemma {:induction false} ServeCount(u: Account, n: nat)
    requires 0 <= u.analysisCount
    ensures u.unlimitedAnalysis ==> Serve(u, n) == (u, n)
    ensures !u.unlimitedAnalysis && u.analysisCount <= FreeUses ==>
              Serve(u, n).1 == Min(n, FreeUses - u.analysisCount)
              && Serve(u, n).0.analysisCount == u.analysisCount + Min(n, FreeUses - u.analysisCount)
    ensures !u.unlimitedAnalysis && u.analysisCount > FreeUses ==> Serve(u, n) == (u, 0)
    decreases n
  {
    if n > 0 {
      if Exhausted(u) {
        ServeCount(u, n - 1);
      } else {
        ServeCount(Charge(u), n - 1);
      }
    }
  }

  /** The same with an imperative loop, as the handlers see it: one request
      at a time against the stored record. */
  method ServeAll(u: Account, n: nat) returns (after: Account, served: nat)
    requires 0 <= u.analysisCount
    ensures (after, served) == Serve(u, n)
    ensures !u.unlimitedAnalysis && u.analysisCount <= FreeUses ==>
              served == Min(n, FreeUses - u.analysisCount)
  {
    after := u;
    served := 0;
    var i := 0;
    while i < n
      invariant 0 <= i <= n
      invariant Serve(u, n) == (Serve(after, n - i).0, served + Serve(after, n - i).1)
      invariant after.unlimitedAnalysis == u.unlimitedAnalysis
      invariant 0 <= after.analysisCount
    {
      if !Exhausted(after) {
        after := Charge(after);
        served := served + 1;
      }
      i := i + 1;
    }
    ServeCount(u, n);
  }
}
