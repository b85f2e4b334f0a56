/** The referral helpers of src/utils/referralUtils.js, lines 9-59: the
    lookup of a referrer by code, the recount of a user's referral
    statistics, and the reward that activates a referred user's entry. */
module Referrals {
  import opened JsValues

  /** An entry of a user's `referrals` list. */
  datatype Referral = Referral(userId: string, isActive: bool, subscriptionStatus: string)

  /** A user document: its referral code, the end date of its subscription
      (absent when it has none), its referrals and the derived counts. */
  class User {
    var referralCode: string
    var subscriptionEnd: Option<int>
    var referrals: seq<Referral>
    var totalReferrals: int
    var activeReferrals: int

    constructor (referralCode: string, subscriptionEnd: Option<int>, referrals: seq<Referral>)
      ensures this.referralCode == referralCode && this.subscriptionEnd == subscriptionEnd
      ensures this.referrals == referrals && totalReferrals == 0 && activeReferrals == 0
    {
      this.referralCode := referralCode;
      this.subscriptionEnd := subscriptionEnd;
      this.referrals := referrals;
      totalReferrals := 0;
      activeReferrals := 0;
    }
  }

  // ---------------------------------------------------------------------
  // validateReferralCode (lines 10-19)

  /** The query of lines 13-16: the stored code is the upper-cased input and
      the subscription ends at `now` or later. */
  predicate Qualifies(u: User, code: string, now: int)
    reads u
  {
    u.referralCode == Upper(code) && u.subscriptionEnd.Some? && u.subscriptionEnd.value >= now
  }

  /** `findOne`: the first qualifying user in the collection's order. */
  function FindReferrer(users: seq<User>, code: string, now: int): Option<User>
    reads users
  {
    if users == [] then None
    else if Qualifies(users[0], code, now) then Some(users[0])
    else FindReferrer(users[1..], code, now)
  }

  /** Lines 10-19, with the clock passed in as `now`: no referrer for an
      absent or empty code, otherwise the first qualifying user, if any. */
  function ValidateReferralCode(referralCode: Option<string>, users: seq<User>, now: int): Option<User>
    reads users
  {
    if referralCode.None? || referralCode.value == "" then None
    else FindReferrer(users, referralCode.value, now)
  }

  /** The search finds the first qualifying user, and finds none exactly
      when no user qualifies. */
  lemma {:induction false} FindReferrerSpec(users: seq<User>, code: string, now: int)
    ensures var r := FindReferrer(users, code, now);
      && (r.Some? ==> exists i | 0 <= i < |users| :: users[i] == r.value && Qualifies(r.value, code, now)
                        && forall k | 0 <= k < i :: !Qualifies(users[k], code, now))
      && (r.None? <==> forall k | 0 <= k < |users| :: !Qualifies(users[k], code, now))
  {
    if users != [] && !Qualifies(users[0], code, now) {
      var rest := users[1..];
      FindReferrerSpec(rest, code, now);
      assert forall k | 1 <= k < |users| :: users[k] == rest[k - 1];
      var r := FindReferrer(users, code, now);
      if r.Some? {
        var i :| 0 <= i < |rest| && rest[i] == r.value && Qualifies(r.value, code, now)
                 && forall k | 0 <= k < i :: !Qualifies(rest[k], code, now);
        assert users[i + 1] == r.value;
        assert forall k | 1 <= k < i + 1 :: !Qualifies(users[k], code, now);
      }
    } else if users != [] {
      assert users[0] == FindReferrer(users, code, now).value;
    }
  }

  /** What the validation answers: nothing for a falsy code, otherwise a
      user of the collection with the upper-cased code and a subscription
      still running at `now`, ahead of every other such user; and nothing
      exactly when there is none. */
  lemma ValidateReferralCodeSpec(referralCode: Option<string>, users: seq<User>, now: int)
    ensures var r := ValidateReferralCode(referralCode, users, now);
      && (referralCode.None? || referralCode.value == "" ==> r.None?)
      && (r.Some? ==> r.value in users && r.value.referralCode == Upper(referralCode.value)
                      && r.value.subscriptionEnd.Some? && r.value.subscriptionEnd.value >= now)
      && (referralCode.Some? && referralCode.value != "" ==>
            (r.None? <==> forall k | 0 <= k < |users| :: !Qualifies(users[k], referralCode.value, now)))
  {
    if referralCode.Some? && referralCode.value != "" {
      FindReferrerSpec(users, referralCode.value, now);
    }
  }

  // ---------------------------------------------------------------------
  // updateReferralStats (lines 22-33)

  /** `referrals.filter(ref => ref.isActive)` */
  function Active(refs: seq<Referral>): seq<Referral> {
    if refs == [] then [] else (if refs[0].isActive then [refs[0]] else []) + Active(refs[1..])
  }

  /** The filter keeps exactly the active entries, so it is never longer
      than the list (`ActiveMultiset` counts how often each is kept). */
  lemma {:induction false} ActiveSpec(refs: seq<Referral>)
    ensures |Active(refs)| <= |refs|
    ensures forall k | 0 <= k < |Active(refs)| :: Active(refs)[k].isActive && Active(refs)[k] in refs
    ensures forall k | 0 <= k < |refs| && refs[k].isActive :: refs[k] in Active(refs)
    ensures |Active(refs)| == |refs| <==> forall k | 0 <= k < |refs| :: refs[k].isActive
  {
    if refs != [] {
      var rest := refs[1..];
      ActiveSpec(rest);
      assert forall k | 1 <= k < |refs| :: refs[k] == rest[k - 1];
      if !refs[0].isActive {
        assert |Active(refs)| < |refs|;
      }
    }
  }

  /** The filter keeps each active entry as often as the list holds it and
      drops every inactive one. */
  lemma {:induction false} ActiveMultiset(refs: seq<Referral>)
    ensures forall e :: multiset(Active(refs))[e] == (if e.isActive then multiset(refs)[e] else 0)
  {
    if refs != [] {
      var rest := refs[1..];
      ActiveMultiset(rest);
      assert refs == [refs[0]] + rest;
      var head := if refs[0].isActive then [refs[0]] else [];
      assert Active(refs) == head + Active(rest);
      assert multiset(Active(refs)) == multiset(head) + multiset(Active(rest));
      assert multiset(refs) == multiset([refs[0]]) + multiset(rest);
    }
  }

  /** Lines 22-33. `findById` is the caller's: `user` is the document found,
      or null. The unused `isActive` argument is not modelled. */
  method UpdateReferralStats(user: User?)
    modifies user
    ensures user != null ==>
      && user.totalReferrals == |user.referrals|
      && user.activeReferrals == |Active(user.referrals)| <= user.totalReferrals
      && user.referrals == old(user.referrals)
      && user.referralCode == old(user.referralCode)
      && user.subscriptionEnd == old(user.subscriptionEnd)
  {
    if user == null {
      return;
    }
    var totalReferrals := |user.referrals|;
    var activeReferrals := |Active(user.referrals)|;
    ActiveSpec(user.referrals);
    user.totalReferrals := totalReferrals;
    user.activeReferrals := activeReferrals;
  }

  // ---------------------------------------------------------------------
  // processReferralReward (lines 36-59)

  /** The entry after the positional update of lines 45-48. */
  function Activated(r: Referral): Referral {
    r.(isActive := true, subscriptionStatus := "active")
  }

  /** The position of the first entry for `userId`, as the positional
      operator `$` picks it. */
  function FirstMatch(refs: seq<Referral>, userId: string): (m: Option<nat>)
    ensures m.Some? ==> m.value < |refs|
  {
    if refs == [] then None
    else if refs[0].userId == userId then Some(0)
    else match FirstMatch(refs[1..], userId)
      case Some(i) => Some(i + 1)
      case None => None
  }

  lemma {:induction false} FirstMatchSpec(refs: seq<Referral>, userId: string)
    ensures var m := FirstMatch(refs, userId);
      && (m.Some? ==> m.value < |refs| && refs[m.value].userId == userId
                      && forall k | 0 <= k < m.value :: refs[k].userId != userId)
      && (m.None? ==> forall k | 0 <= k < |refs| :: refs[k].userId != userId)
  {
    if refs != [] && refs[0].userId != userId {
      FirstMatchSpec(refs[1..], userId);
      assert forall k | 1 <= k < |refs| :: refs[k] == refs[1..][k - 1];
    }
  }

  /** The list after the `findOneAndUpdate` of lines 39-50: the first entry
      for `userId` activated, or no change when there is none. */
  function Rewarded(refs: seq<Referral>, userId: string): seq<Referral> {
    match FirstMatch(refs, userId)
    case Some(i) => refs[i := Activated(refs[i])]
    case None => refs
  }

  /** Lines 36-59. The update and the recount address the same user, so the
      model takes the referrer document found by its id, or null. */
  method ProcessReferralReward(referrer: User?, referredUserId: string)
    modifies referrer
    ensures referrer != null ==>
      && referrer.referrals == Rewarded(old(referrer.referrals), referredUserId)
      && referrer.totalReferrals == |referrer.referrals|
      && referrer.activeReferrals == |Active(referrer.referrals)| <= referrer.totalReferrals
      && referrer.referralCode == old(referrer.referralCode)
      && referrer.subscriptionEnd == old(referrer.subscriptionEnd)
  {
    if referrer != null {
      var refs := referrer.referrals;
      var i := 0;
      while i < |refs| && refs[i].userId != referredUserId
        invariant 0 <= i <= |refs|
        invariant forall k | 0 <= k < i :: refs[k].userId != referredUserId
      {
        i := i + 1;
      }
      FirstMatchSpec(refs, referredUserId);
      if i < |refs| {
        assert FirstMatch(refs, referredUserId) == Some(i);
        referrer.referrals := refs[i := Activated(refs[i])];
      }
    }
    UpdateReferralStats(referrer);
  }

  // ---------------------------------------------------------------------
  // What the reward promises

  /** Only the first entry for the referred user changes, and it becomes
      active; without such an entry nothing changes. */
  lemma RewardedEffect(refs: seq<Referral>, userId: string)
    ensures var r := Rewarded(refs, userId);
      && |r| == |refs|
      && (FirstMatch(refs, userId).None? ==> r == refs)
      && (FirstMatch(refs, userId).Some? ==>
            var i := FirstMatch(refs, userId).value;
            && refs[i].userId == userId
            && r[i] == Referral(userId, true, "active")
            && forall k | 0 <= k < |refs| && k != i :: r[k] == refs[k])
  {
    FirstMatchSpec(refs, userId);
  }

  /** The active count rises by one exactly when the activated entry was
      inactive, and stays the same otherwise. */
  lemma RewardedActiveDelta(refs: seq<Referral>, userId: string)
    ensures var m := FirstMatch(refs, userId);
      |Active(Rewarded(refs, userId))|
        == |Active(refs)| + (if m.Some? && !refs[m.value].isActive then 1 else 0)
  {
    FirstMatchSpec(refs, userId);
    match FirstMatch(refs, userId)
    case None =>
    case Some(i) => ActiveUpdate(refs, i, Activated(refs[i]));
  }

  /** Replacing one entry changes the active count by the difference in
      activity. */
  lemma {:induction false} ActiveUpdate(refs: seq<Referral>, i: nat, e: Referral)
    requires i < |refs|
    ensures |Active(refs[i := e])| + (if refs[i].isActive then 1 else 0)
            == |Active(refs)| + (if e.isActive then 1 else 0)
  {
    if i > 0 {
      ActiveUpdate(refs[1..], i - 1, e);
      assert refs[i := e][1..] == refs[1..][i - 1 := e];
    } else {
      assert refs[i := e][1..] == refs[1..];
    }
  }

  /** An entry for `userId` with none before it is the first match. */
  lemma {:induction false} FirstMatchIs(refs: seq<Referral>, userId: string, i: nat)
    requires i < |refs| && refs[i].userId == userId
    requires forall k | 0 <= k < i :: refs[k].userId != userId
    ensures FirstMatch(refs, userId) == Some(i)
  {
    if i > 0 {
      assert refs[0].userId != userId;
      FirstMatchIs(refs[1..], userId, i - 1);
    }
  }

  /** Rewarding twice is rewarding once: the first entry for the user is
      already active, and the same entry is found again. */
  lemma RewardedIdempotent(refs: seq<Referral>, userId: string)
    ensures Rewarded(Rewarded(refs, userId), userId) == Rewarded(refs, userId)
  {
    FirstMatchSpec(refs, userId);
    match FirstMatch(refs, userId)
    case None =>
    case Some(i) =>
      var r := Rewarded(refs, userId);
      FirstMatchIs(r, userId, i);
  }
}
