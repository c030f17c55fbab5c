/**
 * The `Account` record (a name and the timestamp of its last drop), its
 * derived queries, and the "Accounts ready" count over a list of accounts.
 * The clock reading `now` is a parameter.
 */
module Accounts {
  import opened Base
  import Schedule

  datatype Account = Account(name: string, date: u64)
  {
    /** `get_next_date`: the Wednesday midnight after the last drop, None where `next_wednesday` panics. */
    function NextDate(): Option<u64>
    {
      Schedule.NextWednesdayOf(date)
    }

    /**
     * `get_remaining_time` at clock reading `now`: zero once `now` has
     * reached the next date, otherwise the seconds still to go.
     */
    function RemainingTime(now: u64): (r: Option<u64>)
      ensures r.Some? <==> NextDate().Some?
      ensures r == Some(0) <==> NextDate().Some? && NextDate().value <= now
      ensures r.Some? && now < NextDate().value ==> now + r.value == NextDate().value
    {
      match NextDate()
      case None => None
      case Some(next) => Some(Schedule.RemainingTime(now, next))
    }

    /** The account's drop is available: its remaining time is zero. */
    predicate IsReady(now: u64)
    {
      RemainingTime(now) == Some(0)
    }
  }

  /**
   * The number of ready accounts, as the loop of src/main.rs:173-178
   * computes it; None when that loop panics on some account's next date.
   */
  function CountReady(accounts: seq<Account>, now: u64): Option<nat>
  {
    if accounts == [] then Some(0)
    else Tally(accounts[0].RemainingTime(now), CountReady(accounts[1..], now))
  }

  /** Adds one account's remaining time `r` to the count `rest` of the accounts after it. */
  function Tally(r: Option<u64>, rest: Option<nat>): Option<nat>
  {
    if r.Some? && rest.Some? then Some(if r.value == 0 then rest.value + 1 else rest.value) else None
  }

  function AddCounts(a: Option<nat>, b: Option<nat>): Option<nat>
  {
    if a.Some? && b.Some? then Some(a.value + b.value) else None
  }

  /** Tallying an account before a sum of counts is tallying it before the first. */
  lemma {:induction false} TallyAdd(r: Option<u64>, a: Option<nat>, b: Option<nat>)
    ensures Tally(r, AddCounts(a, b)) == AddCounts(Tally(r, a), b)
  {
  }

  /** The count over a concatenation is the sum of the counts. */
  lemma {:induction false} CountReadyAppend(xs: seq<Account>, ys: seq<Account>, now: u64)
    ensures CountReady(xs + ys, now) == AddCounts(CountReady(xs, now), CountReady(ys, now))
  {
    if xs == [] {
      assert xs + ys == ys;
    } else {
      assert (xs + ys)[0] == xs[0];
      assert (xs + ys)[1..] == xs[1..] + ys;
      CountReadyAppend(xs[1..], ys, now);
      var r := xs[0].RemainingTime(now);
      assert CountReady(xs + ys, now) == Tally(r, CountReady(xs[1..] + ys, now));
      assert CountReady(xs, now) == Tally(r, CountReady(xs[1..], now));
      TallyAdd(r, CountReady(xs[1..], now), CountReady(ys, now));
    }
  }

  /**
   * The count the loop of src/main.rs:173-178 computes, reading the clock
   * afresh for each account: account `i` is judged at `nows[i]`. None when
   * some account's next date panics.
   */
  function CountReadyAt(accounts: seq<Account>, nows: seq<u64>): Option<nat>
    requires |nows| == |accounts|
    decreases |accounts|
  {
    if accounts == [] then Some(0)
    else
      var n := |accounts| - 1;
      Tally(accounts[n].RemainingTime(nows[n]), CountReadyAt(accounts[..n], nows[..n]))
  }

  /**
   * Whatever the clock readings, the count exists exactly when every
   * account has a next date.
   */
  lemma {:induction false} CountReadyAtDefined(accounts: seq<Account>, nows: seq<u64>)
    requires |nows| == |accounts|
    ensures CountReadyAt(accounts, nows).Some? <==>
      forall i :: 0 <= i < |accounts| ==> accounts[i].NextDate().Some?
    decreases |accounts|
  {
    if accounts != [] {
      var n := |accounts| - 1;
      CountReadyAtDefined(accounts[..n], nows[..n]);
      assert forall i :: 0 <= i < n ==> accounts[..n][i] == accounts[i];
    }
  }

  /** Each account paired with the clock reading it is judged at. */
  function Judged(accounts: seq<Account>, nows: seq<u64>): (r: seq<(Account, u64)>)
    requires |nows| == |accounts|
    ensures |r| == |accounts| && forall i :: 0 <= i < |r| ==> r[i] == (accounts[i], nows[i])
  {
    seq(|accounts|, i requires 0 <= i < |accounts| => (accounts[i], nows[i]))
  }

  /** The positions of the accounts ready at their own clock readings. */
  ghost function ReadyAtIndices(accounts: seq<Account>, nows: seq<u64>): set<int>
    requires |nows| == |accounts|
  {
    Positions(Judged(accounts, nows), (p: (Account, u64)) => p.0.IsReady(p.1))
  }

  /**
   * The per-reading count is the number of accounts whose remaining time is
   * zero at the moment the loop judged them.
   */
  lemma {:induction false} CountReadyAtIsReadyIndices(accounts: seq<Account>, nows: seq<u64>)
    requires |nows| == |accounts| && CountReadyAt(accounts, nows).Some?
    ensures CountReadyAt(accounts, nows).value == |ReadyAtIndices(accounts, nows)|
    decreases |accounts|
  {
    if accounts != [] {
      var n := |accounts| - 1;
      var init, initNows := accounts[..n], nows[..n];
      var r := accounts[n].RemainingTime(nows[n]);
      assert CountReadyAt(accounts, nows) == Tally(r, CountReadyAt(init, initNows));
      CountReadyAtIsReadyIndices(init, initNows);
      var P := (p: (Account, u64)) => p.0.IsReady(p.1);
      assert Judged(accounts, nows) == Judged(init, initNows) + [(accounts[n], nows[n])];
      PositionsSnoc(Judged(init, initNows), (accounts[n], nows[n]), P);
    }
  }

  /** A one-account list counts one exactly when that account is ready. */
  lemma {:induction false} CountReadyOne(a: Account, now: u64)
    ensures CountReady([a], now) == Tally(a.RemainingTime(now), Some(0))
  {
    assert [a][1..] == [];
  }

  /** Tallying one more account after a count is adding its one-account count. */
  lemma {:induction false} AddTally(x: Option<nat>, r: Option<u64>)
    ensures AddCounts(x, Tally(r, Some(0))) == Tally(r, x)
  {
  }

  /**
   * With a single clock reading for every account, the count is CountReady:
   * the number of accounts ready at that moment.
   */
  lemma {:induction false} CountReadyAtConstant(accounts: seq<Account>, nows: seq<u64>, now: u64)
    requires |nows| == |accounts|
    requires forall i :: 0 <= i < |nows| ==> nows[i] == now
    ensures CountReadyAt(accounts, nows) == CountReady(accounts, now)
    decreases |accounts|
  {
    if accounts != [] {
      var n := |accounts| - 1;
      var a, init := accounts[n], accounts[..n];
      var r := a.RemainingTime(now);
      assert nows[n] == now;
      assert CountReadyAt(accounts, nows) == Tally(r, CountReadyAt(init, nows[..n]));
      CountReadyAtConstant(init, nows[..n], now);
      assert accounts == init + [a];
      CountReadyAppend(init, [a], now);
      CountReadyOne(a, now);
      AddTally(CountReady(init, now), r);
    }
  }

  /** The count exists exactly when every account has a next date. */
  lemma {:induction false} CountReadyDefined(accounts: seq<Account>, now: u64)
    ensures CountReady(accounts, now).Some? <==>
      forall i :: 0 <= i < |accounts| ==> accounts[i].NextDate().Some?
  {
    if accounts != [] {
      CountReadyDefined(accounts[1..], now);
      assert forall i :: 1 <= i < |accounts| ==> accounts[i] == accounts[1..][i - 1];
    }
  }

  /** The positions in `xs` of the elements that satisfy `P`. */
  ghost function Positions<T>(xs: seq<T>, P: T -> bool): set<int>
  {
    set i | 0 <= i < |xs| && P(xs[i])
  }

  lemma {:induction false} PositionsSnoc<T>(xs: seq<T>, x: T, P: T -> bool)
    ensures |Positions(xs + [x], P)| == |Positions(xs, P)| + (if P(x) then 1 else 0)
  {
    var s := Positions(xs, P);
    var n := |xs|;
    assert n !in s;
    assert forall i :: 0 <= i < n ==> (xs + [x])[i] == xs[i];
    if P(x) {
      assert Positions(xs + [x], P) == s + {n};
    } else {
      assert Positions(xs + [x], P) == s;
    }
  }

  /** The positions of the ready accounts. */
  ghost function ReadyIndices(accounts: seq<Account>, now: u64): set<int>
  {
    Positions(accounts, (a: Account) => a.IsReady(now))
  }

  /** The count is the number of accounts whose remaining time is zero. */
  lemma {:induction false} CountReadyIsReadyIndices(accounts: seq<Account>, now: u64)
    requires CountReady(accounts, now).Some?
    ensures CountReady(accounts, now).value == |ReadyIndices(accounts, now)|
    decreases |accounts|
  {
    if accounts != [] {
      var n := |accounts| - 1;
      var init, last := accounts[..n], accounts[n];
      assert accounts == init + [last];
      CountReadyAppend(init, [last], now);
      CountReadyIsReadyIndices(init, now);
      PositionsSnoc(init, last, (a: Account) => a.IsReady(now));
    }
  }

  /** The count reaches the number of accounts exactly when every account is ready. */
  lemma {:induction false} CountReadyAll(accounts: seq<Account>, now: u64)
    requires CountReady(accounts, now).Some?
    ensures CountReady(accounts, now).value <= |accounts|
    ensures CountReady(accounts, now).value == |accounts| <==>
      forall i :: 0 <= i < |accounts| ==> accounts[i].IsReady(now)
  {
    if accounts != [] {
      var tail := accounts[1..];
      var r := accounts[0].RemainingTime(now);
      assert CountReady(accounts, now) == Tally(r, CountReady(tail, now));
      CountReadyAll(tail, now);
      assert forall i :: 1 <= i < |accounts| ==> accounts[i] == tail[i - 1];
      if forall i :: 0 <= i < |tail| ==> tail[i].IsReady(now) {
        assert forall i :: 1 <= i < |accounts| ==> accounts[i].IsReady(now);
      }
    }
  }

  /** The count is zero exactly when no account is ready. */
  lemma {:induction false} CountReadyNone(accounts: seq<Account>, now: u64)
    requires CountReady(accounts, now).Some?
    ensures CountReady(accounts, now).value == 0 <==>
      forall i :: 0 <= i < |accounts| ==> !accounts[i].IsReady(now)
  {
    if accounts != [] {
      var tail := accounts[1..];
      var r := accounts[0].RemainingTime(now);
      assert CountReady(accounts, now) == Tally(r, CountReady(tail, now));
      CountReadyNone(tail, now);
      assert forall i :: 1 <= i < |accounts| ==> accounts[i] == tail[i - 1];
      if forall i :: 0 <= i < |tail| ==> !tail[i].IsReady(now) {
        assert forall i :: 1 <= i < |accounts| ==> !accounts[i].IsReady(now);
      }
    }
  }

  /** At most every account is ready; all are exactly when each is, none exactly when none is. */
  lemma {:induction false} CountReadyBounds(accounts: seq<Account>, now: u64)
    requires CountReady(accounts, now).Some?
    ensures CountReady(accounts, now).value <= |accounts|
    ensures CountReady(accounts, now).value == |accounts| <==>
      forall i :: 0 <= i < |accounts| ==> accounts[i].IsReady(now)
    ensures CountReady(accounts, now).value == 0 <==>
      forall i :: 0 <= i < |accounts| ==> !accounts[i].IsReady(now)
  {
    CountReadyAll(accounts, now);
    CountReadyNone(accounts, now);
  }
}
