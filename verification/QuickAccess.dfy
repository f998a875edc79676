/** The lockout of a passcode shortcut: five wrong codes freeze it for fifteen minutes. */
module QuickAccess {
  import opened Wrappers

  const MAX_ATTEMPTS := 5
  const LOCK_MS := 15 * 60_000

  /** The columns of the shortcut's row that redeeming reads and writes. */
  datatype Shortcut = Shortcut(failedAttempts: int, lockedUntil: Option<int>, revoked: bool, lastUsedAt: Option<int>)

  /** One redemption: when, whether the code is right, and whether the account is disabled. */
  datatype Try = Try(now: int, right: bool, disabled: bool)

  datatype Answer = Refused | Locked(minutes: int) | AccountDisabled | Welcome

  predicate Frozen(a: Shortcut, now: int) {
    a.lockedUntil.Some? && a.lockedUntil.value > now
  }

  /** The code is compared with the stored one. */
  predicate Checked(a: Shortcut, t: Try) {
    !a.revoked && !Frozen(a, t.now)
  }

  function Wrong(a: Shortcut, now: int): Shortcut {
    var attempts := a.failedAttempts + 1;
    if attempts >= MAX_ATTEMPTS then a.(failedAttempts := 0, lockedUntil := Some(now + LOCK_MS))
    else a.(failedAttempts := attempts, lockedUntil := None)
  }

  function Redeemed(a: Shortcut, t: Try): Shortcut {
    if !Checked(a, t) then a
    else if !t.right then Wrong(a, t.now)
    else if t.disabled then a
    else a.(failedAttempts := 0, lockedUntil := None, lastUsedAt := Some(t.now))
  }

  /** A lock that has not run out. */
  predicate Until(lock: Option<int>, now: int) {
    match lock case None => false case Some(u) => now < u
  }

  class QuickAccessRow {
    var failedAttempts: int
    var lockedUntil: Option<int>
    var revoked: bool
    var lastUsedAt: Option<int>

    constructor ()
      ensures View() == Shortcut(0, None, false, None)
    {
      failedAttempts, lockedUntil, revoked, lastUsedAt := 0, None, false, None;
    }

    function View(): Shortcut
      reads this
    {
      Shortcut(failedAttempts, lockedUntil, revoked, lastUsedAt)
    }

    method Redeem(t: Try) returns (answer: Answer)
      modifies this
      ensures View() == Redeemed(old(View()), t)
      ensures answer == Welcome <==> !old(revoked) && !Until(old(lockedUntil), t.now) && t.right && !t.disabled
      ensures answer == AccountDisabled <==> !old(revoked) && !Until(old(lockedUntil), t.now) && t.right && t.disabled
      ensures answer.Locked? <==> !old(revoked) && Until(old(lockedUntil), t.now)
      ensures answer != Welcome && !(answer == Refused && !old(revoked)) ==> View() == old(View())
      ensures revoked == old(revoked)
      ensures answer.Locked? ==> (answer.minutes > 0 && (answer.minutes - 1) * 60_000 < old(lockedUntil).value - t.now <= answer.minutes * 60_000)
    {
      if revoked { return Refused; }
      if lockedUntil.Some? && lockedUntil.value > t.now {
        return Locked((lockedUntil.value - t.now + 59_999) / 60_000);
      }
      if !t.right {
        var attempts := failedAttempts + 1;
        var lock := attempts >= MAX_ATTEMPTS;
        failedAttempts := if lock then 0 else attempts;
        lockedUntil := if lock then Some(t.now + LOCK_MS) else None;
        return Refused;
      }
      if t.disabled { return AccountDisabled; }
      failedAttempts, lockedUntil, lastUsedAt := 0, None, Some(t.now);
      return Welcome;
    }
  }

  // ---------- Whole runs ----------

  function Exec(a: Shortcut, tries: seq<Try>): Shortcut
    decreases |tries|
  {
    if tries == [] then a else Exec(Redeemed(a, tries[0]), tries[1..])
  }

  lemma {:induction false} CounterStaysBelowFive(a: Shortcut, tries: seq<Try>)
    requires 0 <= a.failedAttempts < MAX_ATTEMPTS
    ensures 0 <= Exec(a, tries).failedAttempts < MAX_ATTEMPTS
    decreases |tries|
  {
    if tries != [] { CounterStaysBelowFive(Redeemed(a, tries[0]), tries[1..]); }
  }

  ghost predicate TimeGoesOn(tries: seq<Try>) {
    forall i, j :: 0 <= i < j < |tries| ==> tries[i].now <= tries[j].now
  }

  /** No redemption of the run succeeds. */
  ghost predicate NeverWelcome(a: Shortcut, tries: seq<Try>)
    decreases |tries|
  {
    tries == [] || (!(Checked(a, tries[0]) && tries[0].right && !tries[0].disabled)
                    && NeverWelcome(Redeemed(a, tries[0]), tries[1..]))
  }

  /** When wrong codes were checked, in order. */
  function WrongTimes(a: Shortcut, tries: seq<Try>): seq<int>
    decreases |tries|
  {
    if tries == [] then []
    else (if Checked(a, tries[0]) && !tries[0].right then [tries[0].now] else [])
         + WrongTimes(Redeemed(a, tries[0]), tries[1..])
  }

  /** Nothing is checked before a lock runs out, nor before the run's first try. */
  lemma {:induction false} NothingBefore(a: Shortcut, tries: seq<Try>, u: int)
    requires TimeGoesOn(tries)
    requires a.lockedUntil == Some(u) || forall i :: 0 <= i < |tries| ==> u <= tries[i].now
    ensures forall i :: 0 <= i < |WrongTimes(a, tries)| ==> u <= WrongTimes(a, tries)[i]
    decreases |tries|
  {
    if tries != [] {
      var t, rest := tries[0], tries[1..];
      if !Checked(a, t) {
        NothingBefore(a, rest, u);
      } else if !a.revoked && a.lockedUntil == Some(u) {
        assert u <= t.now;
        NothingBefore(Redeemed(a, t), rest, u);
      } else {
        NothingBefore(Redeemed(a, t), rest, u);
      }
    }
  }

  lemma {:induction false} TimesAscend(a: Shortcut, tries: seq<Try>)
    requires TimeGoesOn(tries)
    ensures forall i, j :: 0 <= i < j < |WrongTimes(a, tries)| ==> WrongTimes(a, tries)[i] <= WrongTimes(a, tries)[j]
    decreases |tries|
  {
    if tries != [] {
      TimesAscend(Redeemed(a, tries[0]), tries[1..]);
      NothingBefore(Redeemed(a, tries[0]), tries[1..], tries[0].now);
    }
  }

  /** Every wrong code that fills the counter is followed by fifteen minutes without a check. */
  lemma {:induction false} FifthLocks(a: Shortcut, tries: seq<Try>, i: nat)
    requires 0 <= a.failedAttempts < MAX_ATTEMPTS && TimeGoesOn(tries) && NeverWelcome(a, tries)
    requires i + 1 < |WrongTimes(a, tries)| && (a.failedAttempts + i) % 5 == 4
    ensures WrongTimes(a, tries)[i] + LOCK_MS <= WrongTimes(a, tries)[i + 1]
    decreases |tries|
  {
    var t, rest, next := tries[0], tries[1..], Redeemed(a, tries[0]);
    if !Checked(a, t) || t.right {
      FifthLocks(next, rest, i);
    } else if i == 0 {
      NothingBefore(next, rest, t.now + LOCK_MS);
    } else {
      assert (next.failedAttempts + (i - 1)) % 5 == 4 by { Shifted(a.failedAttempts, i); }
      FifthLocks(next, rest, i - 1);
    }
  }

  lemma {:induction false} Shifted(f: int, i: int)
    requires 0 <= f < 5 && (f + i) % 5 == 4
    ensures ((if f + 1 >= 5 then 0 else f + 1) + (i - 1)) % 5 == 4
  {
  }

  /** One of any five consecutive wrong codes fills the counter. */
  lemma {:induction false} OneOfFive(f: int, i: nat) returns (j: nat)
    requires 0 <= f < 5
    ensures i <= j < i + 5 && (f + j) % 5 == 4
  {
    j := i + (4 - (f + i) % 5);
  }

  /** With no correct code in between, any 5k + 1 consecutive wrong codes that were checked span
      at least 15k minutes. */
  lemma {:induction false} GuessingIsSlow(a: Shortcut, tries: seq<Try>, i: nat, k: nat)
    requires 0 <= a.failedAttempts < MAX_ATTEMPTS && TimeGoesOn(tries) && NeverWelcome(a, tries)
    requires i + 5 * k < |WrongTimes(a, tries)|
    ensures WrongTimes(a, tries)[i] + k * LOCK_MS <= WrongTimes(a, tries)[i + 5 * k]
    decreases k
  {
    if k > 0 {
      GuessingIsSlow(a, tries, i, k - 1);
      var m := i + 5 * (k - 1);
      var j := OneOfFive(a.failedAttempts, m);
      FifthLocks(a, tries, j);
      TimesAscend(a, tries);
      hide WrongTimes;
      var times := WrongTimes(a, tries);
      assert times[m] <= times[j] && times[j + 1] <= times[m + 5];
    }
  }

  // ---------- A right code starts afresh ----------

  /** Wrong codes one after the other, none of them before its predecessor. */
  ghost predicate WrongCodes(from: int, tries: seq<Try>) {
    && (forall i :: 0 <= i < |tries| ==> !tries[i].right && from <= tries[i].now)
    && forall i, j :: 0 <= i < j < |tries| ==> tries[i].now <= tries[j].now
  }

  lemma {:induction false} CountsUpToFive(a: Shortcut, from: int, tries: seq<Try>)
    requires !a.revoked && !Until(a.lockedUntil, from) && WrongCodes(from, tries)
    requires 0 <= a.failedAttempts && 0 < |tries| && a.failedAttempts + |tries| <= 5
    ensures var r := Exec(a, tries);
            && r.revoked == a.revoked && r.lastUsedAt == a.lastUsedAt
            && (a.failedAttempts + |tries| < 5 ==> r.failedAttempts == a.failedAttempts + |tries| && r.lockedUntil == None)
            && (a.failedAttempts + |tries| == 5 ==> r.failedAttempts == 0 && r.lockedUntil == Some(tries[|tries| - 1].now + 15 * 60_000))
    decreases |tries|
  {
    var t, rest := tries[0], tries[1..];
    assert Checked(a, t);
    if rest != [] {
      assert forall i :: 0 <= i < |rest| ==> rest[i] == tries[i + 1];
      CountsUpToFive(Redeemed(a, t), t.now, rest);
    } else {
      assert Exec(Redeemed(a, t), rest) == Redeemed(a, t);
    }
  }

  /** After a right code it takes five wrong ones to lock, whatever was counted before; the fifth
      locks for fifteen minutes, and the time of the right one stays on record. */
  lemma {:induction false} RightCodeStartsAfresh(a: Shortcut, t: Try, tries: seq<Try>)
    requires !a.revoked && !Until(a.lockedUntil, t.now) && t.right && !t.disabled
    requires WrongCodes(t.now, tries) && |tries| <= 5
    ensures var r := Exec(a, [t] + tries);
            && r.lastUsedAt == Some(t.now) && !r.revoked
            && (|tries| < 5 ==> r.failedAttempts == |tries| && r.lockedUntil == None)
            && (|tries| == 5 ==> r.failedAttempts == 0 && r.lockedUntil == Some(tries[4].now + 15 * 60_000))
  {
    assert ([t] + tries)[0] == t && ([t] + tries)[1..] == tries;
    assert Checked(a, t);
    if tries != [] { CountsUpToFive(Redeemed(a, t), t.now, tries); }
  }

  /** A revoked shortcut, a lock, and a disabled account's right code change nothing. */
  lemma {:induction false} NothingChanges(a: Shortcut, t: Try)
    requires a.revoked || Until(a.lockedUntil, t.now) || (t.right && t.disabled)
    ensures Exec(a, [t]) == a
  {
    assert [t][1..] == [];
  }
}
