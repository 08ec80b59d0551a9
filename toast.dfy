// The editor's toast list: a reducer over the list of shown toasts, fed by
// a listener that adds each message and schedules its removal.
module Toast {

  datatype Option<T> = None | Some(value: T)

  datatype Level = Info | Success | Error

  /**
   * A toast message.  The reducer compares toasts by identity, so each
   * carries the identity `id` of the object that was emitted.
   */
  datatype Item = Item(id: nat, text: string, level: Level, timeout: Option<int>)

  /** The reducer's actions; any action type other than add and remove is Other. */
  datatype Action = Add(data: Item) | Remove(data: Item) | Other

  /** `state.filter(i => i !== x)`: every toast but `x`, in order. */
  function Without(s: seq<Item>, x: Item): (r: seq<Item>)
    ensures |r| <= |s|
    ensures forall y :: y in r <==> y in s && y != x
    ensures forall y :: y != x ==> multiset(r)[y] == multiset(s)[y]
    ensures x !in s ==> r == s
  {
    if s == [] then []
    else
      var rest := Without(s[..|s| - 1], x);
      var last := s[|s| - 1];
      assert s == s[..|s| - 1] + [last];
      if last == x then rest else rest + [last]
  }

  /** Removing from a concatenation removes from both parts, so the toasts kept stay in order. */
  lemma {:induction false} WithoutAppend(a: seq<Item>, b: seq<Item>, x: Item)
    ensures Without(a + b, x) == Without(a, x) + Without(b, x)
    decreases |b|
  {
    if b == [] {
      assert a + b == a;
    } else {
      var b' := b[..|b| - 1];
      assert (a + b)[..|a + b| - 1] == a + b';
      assert (a + b)[|a + b| - 1] == b[|b| - 1];
      WithoutAppend(a, b', x);
    }
  }

  /**
   * The reducer, over a copy of the previous list: add appends the toast,
   * remove drops every entry identical to it, anything else leaves the
   * copy as it was.
   */
  function Reduce(prev: seq<Item>, a: Action): (r: seq<Item>)
    ensures a.Add? ==> |r| == |prev| + 1 && r[..|prev|] == prev && r[|prev|] == a.data
    ensures a.Remove? ==> a.data !in r && forall y :: y in r <==> y in prev && y != a.data
    ensures a.Remove? ==> forall y :: y != a.data ==> multiset(r)[y] == multiset(prev)[y]
    ensures a.Other? ==> r == prev
  {
    var state := prev;
    match a
    case Add(d) => state + [d]
    case Remove(d) => Without(state, d)
    case Other => state
  }

  /** A toast added and then removed leaves the list as it was, when it was not shown already. */
  lemma AddThenRemove(prev: seq<Item>, x: Item)
    requires x !in prev
    ensures Reduce(Reduce(prev, Add(x)), Remove(x)) == prev
  {
    WithoutAppend(prev, [x], x);
    assert Without([x], x) == [] by {
      assert [x][..0] == [];
    }
    assert prev + [] == prev;
  }

  /** Removing a toast keeps the others in their order around it. */
  lemma RemoveKeepsOrder(before: seq<Item>, x: Item, after: seq<Item>)
    requires x !in before && x !in after
    ensures Reduce(before + [x] + after, Remove(x)) == before + after
  {
    WithoutAppend(before + [x], after, x);
    WithoutAppend(before, [x], x);
    assert [x][..0] == [];
    assert before + [] == before;
  }

  /** How long a toast stays: its timeout, or 5000 ms when it has none or it is 0 (`args.timeout || 5000`). */
  function Delay(x: Item): (ms: int)
    ensures x.timeout.None? ==> ms == 5000
    ensures x.timeout.Some? && x.timeout.value == 0 ==> ms == 5000
    ensures x.timeout.Some? && x.timeout.value != 0 ==> ms == x.timeout.value
  {
    match x.timeout
    case Some(t) => if t != 0 then t else 5000
    case None => 5000
  }

  /** What the listener does for a message: dispatch its addition now, and its removal after its delay. */
  datatype Reaction = Reaction(now: Action, after: int, later: Action)

  function Listen(x: Item): (r: Reaction) {
    Reaction(Add(x), Delay(x), Remove(x))
  }

  /**
   * The listener's two dispatches for a new toast: it is shown at the end
   * of the list now and, after its delay, the list is as before.
   */
  lemma ListenedToastGoes(prev: seq<Item>, x: Item)
    requires x !in prev
    ensures var r := Listen(x);
      && Reduce(prev, r.now) == prev + [x]
      && Reduce(Reduce(prev, r.now), r.later) == prev
  {
    AddThenRemove(prev, x);
  }
}
