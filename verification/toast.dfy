/**
 * The toast list of `hooks/use-toast.ts`: a module-level counter that mints ids, and the
 * pure list updates the `toast` and `dismiss` callbacks hand to React's state setter.
 */
module Toasts {
  import opened Wrappers
  import opened Seqs
  import opened JsText

  /** At most this many toasts are shown at once. */
  const TOAST_LIMIT: nat := 5
  /** `Number.MAX_SAFE_INTEGER`, 2^53 - 1. */
  const MAX_SAFE_INTEGER: nat := 9007199254740991

  datatype Variant = Default | Destructive

  /** What a caller passes to `toast`: every property is optional. */
  datatype ToastProps = ToastProps(title: Option<string>, description: Option<string>, variant: Option<Variant>)

  datatype Toast = Toast(id: string, props: ToastProps)

  /** `genId`: advances the counter modulo `MAX_SAFE_INTEGER` and names the toast by the new count. */
  function GenId(count: nat): (r: (nat, string))
    ensures r.0 < MAX_SAFE_INTEGER
    ensures count + 1 < MAX_SAFE_INTEGER ==> r.0 == count + 1
    ensures count + 1 == MAX_SAFE_INTEGER ==> r.0 == 0
    ensures r.1 != [] && AllDigits(r.1) && ParseDecimal(r.1) == r.0
    ensures |r.1| > 1 ==> r.1[0] != '0'
  {
    var next := (count + 1) % MAX_SAFE_INTEGER;
    DecimalRoundTrip(next);
    (next, DecimalString(next))
  }

  /** Counters below the bound that differ yield different ids. */
  lemma GenIdInjective(a: nat, b: nat)
    requires a < MAX_SAFE_INTEGER && b < MAX_SAFE_INTEGER && a != b
    ensures GenId(a).1 != GenId(b).1
  {
    if GenId(a).1 == GenId(b).1 {
      DecimalInjective(GenId(a).0, GenId(b).0);
    }
  }

  /** The state updater of `toast`: when the list is full its last toast is dropped, then the new one leads. */
  function AddToast(toasts: seq<Toast>, t: Toast): (r: seq<Toast>)
    ensures |r| > 0 && r[0] == t
    ensures |toasts| >= TOAST_LIMIT ==> r[1..] == toasts[..|toasts| - 1]
    ensures |toasts| < TOAST_LIMIT ==> r[1..] == toasts
    ensures |toasts| <= TOAST_LIMIT ==> |r| <= TOAST_LIMIT
  {
    var kept := if |toasts| >= TOAST_LIMIT then toasts[..|toasts| - 1] else toasts;
    [t] + kept
  }

  /** From any list within TOAST_LIMIT, no sequence of additions shows more than TOAST_LIMIT toasts. */
  lemma {:induction false} AddToastsBounded(toasts: seq<Toast>, added: seq<Toast>)
    requires |toasts| <= TOAST_LIMIT
    ensures |AddAll(toasts, added)| <= TOAST_LIMIT
    decreases |added|
  {
    if added != [] {
      AddToastsBounded(AddToast(toasts, added[0]), added[1..]);
    }
  }

  /** The list after adding each toast of `added` in turn. */
  function AddAll(toasts: seq<Toast>, added: seq<Toast>): seq<Toast>
    decreases |added|
  {
    if added == [] then toasts else AddAll(AddToast(toasts, added[0]), added[1..])
  }

  /** `toast(props)`: mints an id, shows a toast carrying it, and returns that id. */
  function ShowToast(count: nat, toasts: seq<Toast>, props: ToastProps): (r: (nat, seq<Toast>, string))
    ensures r.0 < MAX_SAFE_INTEGER && r.2 == DecimalString(r.0)
    ensures r.1 != [] && r.1[0] == Toast(r.2, props)
    ensures |toasts| <= TOAST_LIMIT ==> |r.1| <= TOAST_LIMIT
    ensures (r.0, r.2) == GenId(count)
    ensures |toasts| >= TOAST_LIMIT ==> r.1[1..] == toasts[..|toasts| - 1]
    ensures |toasts| < TOAST_LIMIT ==> r.1[1..] == toasts
  {
    var (next, id) := GenId(count);
    (next, AddToast(toasts, Toast(id, props)), id)
  }

  /** A toast that `dismiss(toastId)` leaves in place. */
  function Survives(toastId: string): Toast -> bool {
    (t: Toast) => t.id != toastId
  }

  /**
   * The state updater of `dismiss(toastId?)`: with a truthy id, the toasts carrying other
   * ids in their order; with no id, or the empty (falsy) string, nothing.
   */
  function Dismiss(toasts: seq<Toast>, toastId: Option<string>): (r: seq<Toast>)
    ensures IsSubsequence(r, toasts)
    ensures toastId.Some? && toastId.value != [] ==>
      forall t :: t in r <==> t in toasts && t.id != toastId.value
    ensures toastId.None? || toastId.value == [] ==> r == []
  {
    if toastId.Some? && toastId.value != [] then
      var keep := Survives(toastId.value);
      FilterIsSubsequence(toasts, keep);
      forall t ensures t in Filter(toasts, keep) <==> t in toasts && keep(t) {
        FilterMembership(toasts, keep, t);
      }
      Filter(toasts, keep)
    else []
  }

  /**
   * Dismissing by id keeps every other toast as often as it occurred and drops all copies
   * of the id; together with the subsequence guarantee this fixes the result.
   */
  lemma DismissCounts(toasts: seq<Toast>, toastId: string, t: Toast)
    requires toastId != []
    ensures multiset(Dismiss(toasts, Some(toastId)))[t] == if t.id != toastId then multiset(toasts)[t] else 0
  {
    FilterCounts(toasts, Survives(toastId), t);
  }

  /** Dismissing the same id twice is the same as dismissing it once. */
  lemma DismissIdempotent(toasts: seq<Toast>, toastId: Option<string>)
    ensures Dismiss(Dismiss(toasts, toastId), toastId) == Dismiss(toasts, toastId)
  {
    if toastId.Some? && toastId.value != [] {
      FilterIdempotent(toasts, Survives(toastId.value));
    }
  }
}
