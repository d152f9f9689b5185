/** What both client pages show of the quota and when they disable their
    submit button. The pages read the signed-in user's record, which may not
    be loaded yet (`userData` undefined). */
module ClientQuota {
  import opened Outcomes
  import opened Text
  import opened Quota

  /** `userData?.analysisCount || 0`: the count, or 0 while nothing is loaded. */
  function CountOf(userData: Option<Account>): int {
    match userData
    case None => 0
    case Some(u) => u.analysisCount
  }

  /** `!!userData?.unlimitedAnalysis`. */
  predicate UnlimitedOf(userData: Option<Account>) {
    userData.Some? && userData.value.unlimitedAnalysis
  }

  /** `loading || (!userData?.unlimitedAnalysis && (userData?.analysisCount || 0) >= 3)`.
      The button is disabled exactly while a request is in flight or when the
      gated handlers would turn the loaded user away; never before the record
      is loaded. */
  predicate Disabled(loading: bool, userData: Option<Account>)
    ensures Disabled(loading, userData) <==> loading || (userData.Some? && Exhausted(userData.value))
  {
    loading || (!UnlimitedOf(userData) && CountOf(userData) >= FreeUses)
  }

  /** The large credits figure: "Unlimited" for unlimited accounts, otherwise
      the uses left that the server reports as `remainingAnalyses`, over 3;
      all three before the record is loaded. */
  function CreditsText(userData: Option<Account>): (r: string)
    ensures userData.Some? && RemainingOf(userData.value).Unlimited? ==> r == "Unlimited"
    ensures userData.Some? && RemainingOf(userData.value).Left? ==> r == IntString(RemainingOf(userData.value).n) + "/3"
    ensures userData.None? ==> r == IntString(FreeUses) + "/3"
  {
    if UnlimitedOf(userData) then "Unlimited" else IntString(FreeUses - CountOf(userData)) + "/3"
  }

  /** The sentence under it, counting the same uses left as the figure. */
  function CreditsSentence(userData: Option<Account>): (r: string)
    ensures userData.Some? && RemainingOf(userData.value).Unlimited? ==> r == "You have unlimited analyses available."
    ensures userData.Some? && RemainingOf(userData.value).Left? ==>
              r == "You have " + IntString(RemainingOf(userData.value).n) + " free analyses."
    ensures userData.None? ==> r == "You have " + IntString(FreeUses) + " free analyses."
  {
    if UnlimitedOf(userData) then "You have unlimited analyses available."
    else "You have " + IntString(FreeUses - CountOf(userData)) + " free analyses."
  }

  /** For a limited account whose count is between 0 and 3 the figure reads
      back as the uses left. */
  lemma {:induction false} CreditsReadBack(u: Account)
    requires !u.unlimitedAnalysis && 0 <= u.analysisCount <= FreeUses
    ensures var t := CreditsText(Some(u));
            |t| == 3 && t[1..] == "/3" && AllDigits(t[..1]) && NatValue(t[..1]) == FreeUses - u.analysisCount
  {
    var n := FreeUses - u.analysisCount;
    var t := CreditsText(Some(u));
    assert |IntString(n)| == 1;
    assert t == IntString(n) + "/3";
    assert t[..1] == IntString(n);
    assert t[1..] == "/3";
  }
}
