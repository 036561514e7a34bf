/** The toast list of the front end: a sequence of messages with a kind,
    free of repeated (message, kind) pairs, with identifiers drawn from a
    counter that only grows. */
module Toasts {
  import opened Seqs

  datatype ToastType = Success | Error | Info | Warning

  /** A toast. The identifier is the counter value it was issued with; it is
      shown as `IdText(id)`. */
  datatype Toast = Toast(id: nat, message: string, kind: ToastType)

  /** The list the hook holds, and the counter shared by every use of the
      hook: the last identifier issued. */
  datatype ToastState = ToastState(toasts: seq<Toast>, counter: nat)

  const Initial := ToastState([], 0)

  // ---------------------------------------------------------------------------
  // Identifiers

  function Digit(d: nat): (c: char)
    requires d < 10
    ensures '0' <= c <= '9'
  {
    ('0' as int + d) as char
  }

  /** The decimal numeral of `n`, as a template literal prints it. */
  function Decimal(n: nat): (s: string)
    ensures 1 <= |s|
    ensures n >= 10 ==> 2 <= |s|
    ensures forall k :: 0 <= k < |s| ==> '0' <= s[k] <= '9'
  {
    if n < 10 then [Digit(n)] else Decimal(n / 10) + [Digit(n % 10)]
  }

  /** The identifier string, `toast-N`. */
  function IdText(id: nat): string {
    "toast-" + Decimal(id)
  }

  /** Different counter values print as different numerals. */
  lemma {:induction false} DecimalInjective(a: nat, b: nat)
    requires Decimal(a) == Decimal(b)
    ensures a == b
  {
    if a >= 10 && b >= 10 {
      var da, db := Decimal(a), Decimal(b);
      assert Digit(a % 10) == da[|da| - 1] == db[|db| - 1] == Digit(b % 10);
      assert Decimal(a / 10) == da[..|da| - 1] == db[..|db| - 1] == Decimal(b / 10);
      DecimalInjective(a / 10, b / 10);
    }
  }

  /** Distinct counter values give distinct identifier strings. */
  lemma IdTextInjective(a: nat, b: nat)
    requires IdText(a) == IdText(b)
    ensures a == b
  {
    assert Decimal(a) == IdText(a)[6..] == IdText(b)[6..] == Decimal(b);
    DecimalInjective(a, b);
  }

  // ---------------------------------------------------------------------------
  // The list

  /** A toast with this message and kind is on the list. */
  predicate Shown(ts: seq<Toast>, message: string, kind: ToastType) {
    exists i :: 0 <= i < |ts| && ts[i].message == message && ts[i].kind == kind
  }

  /** Identifiers increase along the list and none is beyond the counter;
      no two toasts share message and kind. */
  predicate Valid(st: ToastState) {
    && (forall i, j :: 0 <= i < j < |st.toasts| ==> st.toasts[i].id < st.toasts[j].id)
    && (forall i :: 0 <= i < |st.toasts| ==> st.toasts[i].id <= st.counter)
    && (forall i, j :: 0 <= i < j < |st.toasts| ==>
          (st.toasts[i].message, st.toasts[i].kind) != (st.toasts[j].message, st.toasts[j].kind))
  }

  /** `addToast`: nothing happens when the same message of the same kind is
      already shown; otherwise the counter advances and a toast carrying it
      is appended. The kind defaults to `Info`. */
  function AddToast(st: ToastState, message: string, kind: ToastType := Info): (r: ToastState)
    ensures Shown(st.toasts, message, kind) ==> r == st
    ensures !Shown(st.toasts, message, kind) ==>
      && r.counter == st.counter + 1
      && |r.toasts| == |st.toasts| + 1
      && r.toasts[..|st.toasts|] == st.toasts
      && r.toasts[|st.toasts|] == Toast(r.counter, message, kind)
    ensures Shown(r.toasts, message, kind)
  {
    if Shown(st.toasts, message, kind) then st
    else
      var id := st.counter + 1;
      var r := ToastState(st.toasts + [Toast(id, message, kind)], id);
      assert r.toasts[|st.toasts|].message == message;
      r
  }

  /** `removeToast`: every toast with that identifier goes, the rest keep their order. */
  function RemoveToast(st: ToastState, id: nat): (r: ToastState)
    ensures r.counter == st.counter
    ensures forall t :: t in r.toasts <==> t in st.toasts && t.id != id
  {
    ToastState(Filter(st.toasts, (t: Toast) => t.id != id), st.counter)
  }

  /** What `addToast` does with a message of a given kind: the toast ends up
      shown; a repeat leaves the state alone; otherwise one toast with the
      next identifier is appended and the counter advances to it. */
  predicate AddsToast(st: ToastState, r: ToastState, message: string, kind: ToastType) {
    && Shown(r.toasts, message, kind)
    && (Shown(st.toasts, message, kind) ==> r == st)
    && (!Shown(st.toasts, message, kind) ==>
          && r.toasts == st.toasts + [Toast(st.counter + 1, message, kind)]
          && r.counter == st.counter + 1)
  }

  /** `success`: `addToast` with the kind `Success`. */
  function ShowSuccess(st: ToastState, message: string): (r: ToastState)
    ensures AddsToast(st, r, message, Success)
  {
    AddToast(st, message, Success)
  }

  /** `error`: `addToast` with the kind `Error`. */
  function ShowError(st: ToastState, message: string): (r: ToastState)
    ensures AddsToast(st, r, message, Error)
  {
    AddToast(st, message, Error)
  }

  /** `info`: `addToast` with the kind `Info`. */
  function ShowInfo(st: ToastState, message: string): (r: ToastState)
    ensures AddsToast(st, r, message, Info)
  {
    AddToast(st, message, Info)
  }

  /** `warning`: `addToast` with the kind `Warning`. */
  function ShowWarning(st: ToastState, message: string): (r: ToastState)
    ensures AddsToast(st, r, message, Warning)
  {
    AddToast(st, message, Warning)
  }

  // ---------------------------------------------------------------------------
  // Properties

  /** The empty list with a fresh counter is valid. */
  lemma InitialValid()
    ensures Valid(Initial)
  {
  }

  /** Identifiers on a valid list are pairwise distinct, and so are their strings. */
  lemma ValidIdsDistinct(st: ToastState)
    requires Valid(st)
    ensures forall i, j :: 0 <= i < j < |st.toasts| ==> IdText(st.toasts[i].id) != IdText(st.toasts[j].id)
  {
    forall i, j | 0 <= i < j < |st.toasts|
      ensures IdText(st.toasts[i].id) != IdText(st.toasts[j].id)
    {
      if IdText(st.toasts[i].id) == IdText(st.toasts[j].id) {
        IdTextInjective(st.toasts[i].id, st.toasts[j].id);
      }
    }
  }

  /** `addToast` keeps the list valid. */
  lemma AddPreservesValid(st: ToastState, message: string, kind: ToastType)
    requires Valid(st)
    ensures Valid(AddToast(st, message, kind))
  {
    var r := AddToast(st, message, kind);
    if !Shown(st.toasts, message, kind) {
      forall i | 0 <= i < |st.toasts|
        ensures (r.toasts[i].message, r.toasts[i].kind) != (message, kind)
      {
        assert r.toasts[i] == st.toasts[i];
      }
    }
  }

  /** `removeToast` keeps the list valid. */
  lemma RemovePreservesValid(st: ToastState, id: nat)
    requires Valid(st)
    ensures Valid(RemoveToast(st, id))
  {
    FilterPreservesValid(st.toasts, (t: Toast) => t.id != id, st.counter);
  }

  /** Keeping some of the toasts of a valid list, in order, leaves it valid. */
  lemma {:induction false} FilterPreservesValid(ts: seq<Toast>, p: Toast -> bool, counter: nat)
    requires Valid(ToastState(ts, counter))
    ensures Valid(ToastState(Filter(ts, p), counter))
  {
    if ts != [] {
      var rest := ts[1..];
      var kept := Filter(rest, p);
      assert Valid(ToastState(rest, counter));
      FilterPreservesValid(rest, p, counter);
      if p(ts[0]) {
        forall t | t in kept
          ensures ts[0].id < t.id && (ts[0].message, ts[0].kind) != (t.message, t.kind)
        {
          var k :| 0 <= k < |rest| && rest[k] == t;
          assert ts[k + 1] == t;
        }
        ConsValid(ts[0], kept, counter);
        assert Filter(ts, p) == [ts[0]] + kept;
      } else {
        assert Filter(ts, p) == kept;
      }
    }
  }

  /** Putting a toast in front of a valid list keeps it valid when the toast
      is older than, and differs from, every toast already there. */
  lemma ConsValid(t: Toast, ts: seq<Toast>, counter: nat)
    requires Valid(ToastState(ts, counter)) && t.id <= counter
    requires forall x :: x in ts ==> t.id < x.id && (t.message, t.kind) != (x.message, x.kind)
    ensures Valid(ToastState([t] + ts, counter))
  {
    var r := [t] + ts;
    assert forall i :: 1 <= i < |r| ==> r[i] == ts[i - 1] && r[i] in ts;
  }

  /** Adding the same toast twice is adding it once. */
  lemma AddIdempotent(st: ToastState, message: string, kind: ToastType)
    ensures AddToast(AddToast(st, message, kind), message, kind) == AddToast(st, message, kind)
  {
  }

  /** Repeats are recognised by message AND kind: the same message as a
      success and then as an error gives two toasts, with consecutive ids. */
  lemma KindsDeduplicateSeparately(st: ToastState, message: string)
    requires !Shown(st.toasts, message, Success) && !Shown(st.toasts, message, Error)
    ensures ShowError(ShowSuccess(st, message), message).toasts ==
      st.toasts + [Toast(st.counter + 1, message, Success), Toast(st.counter + 2, message, Error)]
  {
  }

  /** The kind defaults to `Info`. */
  lemma DefaultKindIsInfo(st: ToastState, message: string)
    ensures AddToast(st, message) == ShowInfo(st, message)
    ensures !Shown(st.toasts, message, Info) ==> AddToast(st, message).toasts[|st.toasts|].kind == Info
  {
  }

  /** Removing an identifier nobody carries changes nothing. */
  lemma RemoveUnknownIsNoop(st: ToastState, id: nat)
    requires forall i :: 0 <= i < |st.toasts| ==> st.toasts[i].id != id
    ensures RemoveToast(st, id) == st
  {
    FilterKeepsAll(st.toasts, (t: Toast) => t.id != id);
  }

  /** On a valid list, removing the toast just added gives back the list it
      was added to (the counter stays advanced), which is what the timer does. */
  lemma AddThenRemove(st: ToastState, message: string, kind: ToastType)
    requires Valid(st)
    requires !Shown(st.toasts, message, kind)
    ensures var added := AddToast(st, message, kind);
      RemoveToast(added, added.counter) == ToastState(st.toasts, st.counter + 1)
  {
    var added := AddToast(st, message, kind);
    var p := (t: Toast) => t.id != added.counter;
    assert added.toasts == st.toasts + [Toast(added.counter, message, kind)];
    FilterConcat(st.toasts, [Toast(added.counter, message, kind)], p);
    FilterKeepsAll(st.toasts, p);
    assert Filter([Toast(added.counter, message, kind)], p) == [];
  }
}
