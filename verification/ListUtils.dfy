/** The growing list of src/utils/list_utils.c. */
module ListUtils {
  import opened Bytes

  const MAX_UINT32 := 0xFFFF_FFFF

  // ---------------------------------------------------------------- what append does

  /** `copied` counts the elements that realloc had to move so far. */
  datatype State<T> = State(items: seq<T>, capacity: nat, copied: nat)

  function Empty<T>(capacity: nat): State<T> { State([], capacity, 0) }

  /** The capacity after growth; None if the list cannot grow any more. */
  function Grown(capacity: nat): (c: Option<nat>)
    ensures c.Some? ==> c.value <= MAX_UINT32 && (capacity >= 1 ==> c.value > capacity)
    ensures capacity <= MAX_UINT32 ==> (c.None? <==> capacity == MAX_UINT32)
  {
    if capacity <= 0x7FFF_FFFF then Some(2 * capacity)
    else if capacity >= MAX_UINT32 then None
    else Some(MAX_UINT32)
  }

  /** One call of append; `allocates` tells whether realloc would succeed. */
  function Appended<T>(s: State<T>, elem: T, allocates: bool): State<T> {
    if |s.items| < s.capacity then s.(items := s.items + [elem])
    else match Grown(s.capacity)
      case None => s
      case Some(c) => if allocates then State(s.items + [elem], c, s.copied + |s.items|) else s
  }

  datatype Call<T> = Call(elem: T, allocates: bool)

  function Run<T>(s: State<T>, calls: seq<Call<T>>): State<T>
    decreases |calls|
  {
    if calls == [] then s else Run(Appended(s, calls[0].elem, calls[0].allocates), calls[1..])
  }

  /** The elements that were passed to append. */
  function Elems<T>(calls: seq<Call<T>>): (r: seq<T>)
    ensures |r| == |calls|
  {
    seq(|calls|, i requires 0 <= i < |calls| => calls[i].elem)
  }

  /** The list fits its memory, and growth was paid for: doubling from `initial`, and perhaps one step to the limit. */
  predicate Sound<T>(s: State<T>, initial: nat) {
    && 1 <= initial <= s.capacity <= MAX_UINT32 && |s.items| <= s.capacity
    && if s.copied == s.capacity - initial then s.capacity == initial || s.capacity < 2 * |s.items|
       else s.capacity == MAX_UINT32 && s.copied < 2 * |s.items|
  }

  lemma AppendKeepsSound<T>(s: State<T>, initial: nat, elem: T, allocates: bool)
    requires Sound(s, initial)
    ensures Sound(Appended(s, elem, allocates), initial)
  {
  }

  lemma {:induction false} RunKeepsSound<T>(s: State<T>, initial: nat, calls: seq<Call<T>>)
    requires Sound(s, initial)
    ensures Sound(Run(s, calls), initial)
    decreases |calls|
  {
    if calls != [] {
      AppendKeepsSound(s, initial, calls[0].elem, calls[0].allocates);
      RunKeepsSound(Appended(s, calls[0].elem, calls[0].allocates), initial, calls[1..]);
    }
  }

  /** Growing costs less than two moves for each element in the list. */
  lemma CopiedIsLinear<T>(initial: nat, calls: seq<Call<T>>)
    requires 1 <= initial <= 4294967295
    ensures var s := Run(Empty(initial), calls);
            |s.items| <= s.capacity <= 4294967295 && (s.copied == 0 || s.copied < 2 * |s.items|)
  {
    RunKeepsSound(Empty<T>(initial), initial, calls);
  }

  /** Whatever fails, the list holds some of the appended elements in order; nothing else and nothing twice. */
  predicate Selects<T(==)>(a: seq<T>, b: seq<T>)
    decreases |b|
  {
    if b == [] then a == []
    else
      || Selects(a, b[..|b| - 1])
      || (a != [] && a[|a| - 1] == b[|b| - 1] && Selects(a[..|a| - 1], b[..|b| - 1]))
  }

  lemma {:induction false} RunSnoc<T>(s: State<T>, calls: seq<Call<T>>)
    requires calls != []
    ensures Run(s, calls)
            == Appended(Run(s, calls[..|calls| - 1]), calls[|calls| - 1].elem, calls[|calls| - 1].allocates)
    decreases |calls|
  {
    if |calls| > 1 {
      RunSnoc(Appended(s, calls[0].elem, calls[0].allocates), calls[1..]);
      assert calls[1..][..|calls| - 2] == calls[..|calls| - 1][1..];
    } else {
      assert calls[1..] == [] && calls[..0] == [];
    }
  }

  lemma {:induction false} RunSelects<T>(initial: nat, calls: seq<Call<T>>)
    ensures Selects(Run(Empty(initial), calls).items, Elems(calls))
    decreases |calls|
  {
    hide Appended;
    if calls != [] {
      var init, last := calls[..|calls| - 1], calls[|calls| - 1];
      RunSelects(initial, init);
      RunSnoc(Empty<T>(initial), calls);
      var before := Run(Empty<T>(initial), init);
      assert Elems(calls)[..|calls| - 1] == Elems(init);
      AppendsOneOrNothing(before, last.elem, last.allocates);
    }
  }

  lemma AppendsOneOrNothing<T>(s: State<T>, elem: T, allocates: bool)
    ensures Appended(s, elem, allocates).items == s.items
            || (Appended(s, elem, allocates).items == s.items + [elem]
                && Appended(s, elem, allocates).items[..|s.items|] == s.items)
  {
    assert (s.items + [elem])[..|s.items|] == s.items;
  }

  /** If memory does not run out, up to 2^32 - 1 elements are all kept, in order. */
  lemma {:induction false} RunKeepsAll<T>(initial: nat, calls: seq<Call<T>>)
    requires 1 <= initial <= 4294967295 && |calls| <= 4294967295
    requires forall i :: 0 <= i < |calls| ==> calls[i].allocates
    ensures Run(Empty(initial), calls).items == Elems(calls)
    decreases |calls|
  {
    if calls == [] {
      var none: seq<T> := [];
      assert Elems(calls) == none;
    } else {
      var init, last := calls[..|calls| - 1], calls[|calls| - 1];
      RunKeepsAll(initial, init);
      RunKeepsSound(Empty<T>(initial), initial, init);
      RunSnoc(Empty<T>(initial), calls);
      assert Elems(calls) == Elems(init) + [last.elem];
    }
  }

  // ---------------------------------------------------------------- the code

  class List2<T(0)> {
    var memory: array<T>
    var len: nat
    var capacity: nat
    ghost var copied: nat
    ghost const initial: nat

    ghost predicate Valid()
      reads this, memory
    {
      capacity == memory.Length && len <= capacity && Sound(View(), initial)
    }

    ghost function View(): State<T>
      reads this, memory
      requires len <= memory.Length
    {
      State(memory[..len], capacity, copied)
    }

    /** init_list. Doubling a capacity of zero leaves it at zero, so a list that is appended to needs at least one. */
    constructor (capacity: nat)
      requires 1 <= capacity <= MAX_UINT32
      ensures Valid() && fresh(memory) && initial == capacity && View() == Empty(capacity)
    {
      memory := new T[capacity];
      len, this.capacity, copied, initial := 0, capacity, 0, capacity;
    }

    method Append(elem: T, allocates: bool)
      requires Valid()
      modifies this, memory
      ensures Valid() && (memory == old(memory) || fresh(memory))
      ensures View() == Appended(old(View()), elem, allocates)
    {
      AppendKeepsSound(View(), initial, elem, allocates);
      hide Sound;
      if len >= capacity {
        var newCap;
        if capacity <= 0x7FFF_FFFF {
          newCap := capacity * 2;
        } else if capacity >= MAX_UINT32 {
          return;
        } else {
          newCap := MAX_UINT32;
        }
        if !allocates { return; }
        Reallocate(newCap);
      }
      memory[len] := elem;
      len := len + 1;
      assert memory[..len] == old(memory[..len]) + [elem];
    }

    /** realloc to a larger block. */
    method Reallocate(newCap: nat)
      requires len == capacity == memory.Length < newCap
      modifies this
      ensures len == old(len) && copied == old(copied) + len
      ensures fresh(memory) && capacity == newCap == memory.Length && memory[..len] == old(memory[..len])
    {
      var newArr := new T[newCap];
      forall i | 0 <= i < len { newArr[i] := memory[i]; }
      assert newArr[..len] == memory[..len];
      memory, capacity, copied := newArr, newCap, copied + len;
    }
  }
}
