/**
 * components/StoreModal.tsx: whether a streak freeze is running, whether the
 * balance covers one, what the freeze item shows, and the expiry day text.
 * The clock's "today" is a parameter and the stored expiry is a day value.
 */
module StoreModal {
  import opened Options
  import opened Calendar
  import opened DayString

  /** The two wallet fields the store reads. */
  datatype Wallet = Wallet(coins: int, freezeExpiresAt: Option<Date>)

  /** The freeze item's price in coins (StoreModal.tsx:24, 80). */
  const FreezePrice := 2

  /** The expiry, when present, is a real day. */
  predicate WellFormed(w: Wallet) {
    w.freezeExpiresAt.Some? ==> Valid(w.freezeExpiresAt.value)
  }

  /** isFreezeActive (StoreModal.tsx:20-22): `expiry >= today` as days. */
  predicate IsFreezeActive(w: Wallet, today: Date)
    ensures w.freezeExpiresAt.None? ==> !IsFreezeActive(w, today)
    ensures w.freezeExpiresAt.Some? ==>
      (IsFreezeActive(w, today) <==> OnOrBefore(today, w.freezeExpiresAt.value))
  {
    w.freezeExpiresAt.Some? && !Before(w.freezeExpiresAt.value, today)
  }

  /** canAfford (StoreModal.tsx:24): paying the price leaves no negative balance. */
  predicate CanAfford(w: Wallet)
    ensures CanAfford(w) <==> w.coins - FreezePrice >= 0
  {
    w.coins >= FreezePrice
  }

  /** The expiry day itself is covered; the day after it is not. */
  lemma FreezeEndsAfterExpiryDay(coins: int, today: Date)
    requires Valid(today)
    ensures IsFreezeActive(Wallet(coins, Some(today)), today)
    ensures !IsFreezeActive(Wallet(coins, Some(PrevDay(today))), today)
    ensures !IsFreezeActive(Wallet(coins, None), today)
  {
  }

  /** Once a freeze has lapsed it stays lapsed on every later day. */
  lemma FreezeLapseIsPermanent(w: Wallet, t1: Date, t2: Date)
    requires OnOrBefore(t1, t2) && !IsFreezeActive(w, t1)
    ensures !IsFreezeActive(w, t2)
  {
    if w.freezeExpiresAt.Some? {
      BeforeIsStrictTotalOrder(w.freezeExpiresAt.value, t1, t2);
    }
  }

  /** `s.split(sep)`: the maximal runs of `s` between separators, in order. */
  function Split(s: string, sep: char): (parts: seq<string>)
    ensures |parts| >= 1
    ensures forall i :: 0 <= i < |parts| ==> sep !in parts[i]
    decreases |s|
  {
    if |s| == 0 then [""]
    else
      var rest := Split(s[1..], sep);
      if s[0] == sep then [""] + rest
      else [[s[0]] + rest[0]] + rest[1..]
  }

  /** No piece of `parts` contains `c`. */
  predicate NoneContain(parts: seq<string>, c: char) {
    forall i :: 0 <= i < |parts| ==> c !in parts[i]
  }

  /** `parts.join(sep)`: brings in no character but the pieces' and `sep`. */
  function Join(parts: seq<string>, sep: char): (r: string)
    ensures forall c :: c != sep && NoneContain(parts, c) ==> c !in r
    decreases |parts|
  {
    if |parts| == 0 then ""
    else if |parts| == 1 then parts[0]
    else parts[0] + [sep] + Join(parts[1..], sep)
  }

  /** `xs.reverse()`. */
  function Reverse<T>(xs: seq<T>): (r: seq<T>)
    ensures |r| == |xs|
    ensures forall i :: 0 <= i < |xs| ==> r[i] == xs[|xs| - 1 - i]
    decreases |xs|
  {
    if xs == [] then [] else Reverse(xs[1..]) + [xs[0]]
  }

  /**
   * The expiry text (StoreModal.tsx:73): split on '-', reverse, join with '/'.
   * No dash survives, and a string without dashes shows unchanged.
   */
  function ExpiryDisplay(s: string): (r: string)
    ensures '-' !in r
    ensures '-' !in s ==> r == s
  {
    var parts := Reverse(Split(s, '-'));
    assert NoneContain(parts, '-');
    if '-' !in s then SplitWithoutSeparator(s, '-'); Join(parts, '/')
    else Join(parts, '/')
  }

  /** Joining the pieces of a split gives the string back. */
  lemma {:induction false} SplitJoinRoundTrip(s: string, sep: char)
    ensures Join(Split(s, sep), sep) == s
    decreases |s|
  {
    if |s| > 0 {
      var rest := Split(s[1..], sep);
      SplitJoinRoundTrip(s[1..], sep);
      if s[0] != sep {
        assert s == [s[0]] + s[1..];
        if |rest| > 1 {
          assert rest == [rest[0]] + rest[1..];
          assert Join(rest, sep) == rest[0] + [sep] + Join(rest[1..], sep);
        }
      }
    }
  }

  lemma {:induction false} SplitWithoutSeparator(a: string, sep: char)
    requires sep !in a
    ensures Split(a, sep) == [a]
    decreases |a|
  {
    if |a| > 0 {
      assert sep !in a[1..];
      SplitWithoutSeparator(a[1..], sep);
      assert a == [a[0]] + a[1..];
    }
  }

  lemma {:induction false} SplitAtFirstSeparator(a: string, b: string, sep: char)
    requires sep !in a
    ensures Split(a + [sep] + b, sep) == [a] + Split(b, sep)
    decreases |a|
  {
    if |a| > 0 {
      assert sep !in a[1..];
      SplitAtFirstSeparator(a[1..], b, sep);
      assert (a + [sep] + b)[1..] == a[1..] + [sep] + b;
      assert a == [a[0]] + a[1..];
    } else {
      assert a + [sep] + b == [sep] + b;
    }
  }

  lemma DigitsHaveNoDash(s: string)
    requires AllDigits(s)
    ensures '-' !in s
  {
  }

  /** Three dash-free fields come back in reverse order, slash-separated. */
  lemma DisplayOfFields(ys: string, ms: string, ds: string)
    requires '-' !in ys && '-' !in ms && '-' !in ds
    ensures ExpiryDisplay(ys + "-" + ms + "-" + ds) == ds + "/" + ms + "/" + ys
  {
    assert ys + "-" + ms + "-" + ds == ys + ['-'] + (ms + ['-'] + ds);
    SplitAtFirstSeparator(ys, ms + ['-'] + ds, '-');
    SplitAtFirstSeparator(ms, ds, '-');
    SplitWithoutSeparator(ds, '-');
    var parts := Split(ys + "-" + ms + "-" + ds, '-');
    assert parts == [ys, ms, ds];
    var rev := Reverse(parts);
    assert rev == [ds, ms, ys];
    assert Join(rev, '/') == ds + "/" + Join([ms, ys], '/');
  }

  /** For years from 0 on, the expiry text of a day is `DD/MM/<year>`. */
  lemma ExpiryDisplayOfDay(d: Date)
    requires Valid(d)
    ensures d.year >= 0 ==>
      ExpiryDisplay(Format(d)) == TwoDigits(d.day) + "/" + TwoDigits(d.month) + "/" + NatToString(d.year)
  {
    if d.year >= 0 {
      var ys, ms, ds := NatToString(d.year), TwoDigits(d.month), TwoDigits(d.day);
      TwoDigitsFacts(d.month);
      TwoDigitsFacts(d.day);
      DigitsHaveNoDash(ys);
      DigitsHaveNoDash(ms);
      DigitsHaveNoDash(ds);
      assert Format(d) == ys + "-" + ms + "-" + ds;
      DisplayOfFields(ys, ms, ds);
    }
  }

  /** How the freeze item's action is shown (StoreModal.tsx:83-100). */
  datatype FreezeAction = BuyButton(disabled: bool) | ActiveBadge

  /** The state-dependent parts of the freeze item (StoreModal.tsx:63, 71-75, 83-100). */
  datatype FreezeItem = FreezeItem(highlighted: bool, activeUntil: Option<string>, action: FreezeAction)

  /**
   * The buy button appears only while no freeze covers today, and is
   * disabled exactly when the balance is below the price; otherwise the
   * badge and the expiry text show.
   */
  function RenderFreezeItem(w: Wallet, today: Date): (v: FreezeItem)
    requires WellFormed(w)
    ensures v.action.BuyButton? <==> w.freezeExpiresAt.None? || Before(w.freezeExpiresAt.value, today)
    ensures v.action.BuyButton? ==> (v.action.disabled <==> !CanAfford(w))
    ensures v.highlighted <==> v.action.ActiveBadge?
    ensures v.activeUntil.Some? <==> v.action.ActiveBadge?
    ensures v.activeUntil.Some? && w.freezeExpiresAt.value.year >= 0 ==>
      var e := w.freezeExpiresAt.value;
      v.activeUntil.value == TwoDigits(e.day) + "/" + TwoDigits(e.month) + "/" + NatToString(e.year)
  {
    var active := IsFreezeActive(w, today);
    if active then
      var e := w.freezeExpiresAt.value;
      ExpiryDisplayOfDay(e);
      FreezeItem(true, Some(ExpiryDisplay(Format(e))), ActiveBadge)
    else
      FreezeItem(false, None, BuyButton(!CanAfford(w)))
  }
}
