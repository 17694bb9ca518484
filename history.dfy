/**
 * The input history of src/core/history.c: a ring buffer of at most
 * `capacity` entries, oldest first. An entry is stored with its trailing
 * white space removed; an entry that is empty after that, or that the buffer
 * already holds, is not stored; when the buffer is full the oldest entry is
 * overwritten.
 *
 * `Contents` is the list of entries oldest first, the view the functions of
 * the C interface give of the buffer; `Valid` ties it to the array, `head`
 * and `size`.
 */
module History {
  import opened Wrappers

  /** The characters `history_add` strips from the end of an entry. */
  predicate IsTrailingSpace(c: char) { c == ' ' || c == '\t' || c == '\n' || c == '\r' }

  /** A C string: it cannot hold a NUL character. */
  predicate IsCString(s: string) { forall k :: 0 <= k < |s| ==> s[k] != '\0' }

  /** s without its trailing white space. */
  function TrimmedEnd(s: string): (t: string)
    ensures t <= s
    ensures |t| == 0 || !IsTrailingSpace(t[|t| - 1])
    ensures forall k :: |t| <= k < |s| ==> IsTrailingSpace(s[k])
  {
    if |s| > 0 && IsTrailingSpace(s[|s| - 1]) then TrimmedEnd(s[..|s| - 1]) else s
  }

  /** The loop of `history_add` that strips trailing white space. */
  method StripTrailingWhitespace(s: string) returns (t: string)
    ensures t == TrimmedEnd(s)
  {
    var len := |s|;
    while len > 0 && IsTrailingSpace(s[len - 1])
      invariant 0 <= len <= |s|
      invariant TrimmedEnd(s[..len]) == TrimmedEnd(s)
    {
      assert s[..len][..len - 1] == s[..len - 1];
      len := len - 1;
    }
    assert s[..len] == s || !(len > 0 && IsTrailingSpace(s[..len][len - 1]));
    t := s[..len];
  }

  /** What the buffer may hold: non-empty entries without trailing white space, no two alike. */
  predicate Admissible(contents: seq<string>)
  {
    && (forall i :: 0 <= i < |contents| ==> contents[i] != [] && TrimmedEnd(contents[i]) == contents[i])
    && (forall i, j :: 0 <= i < j < |contents| ==> contents[i] != contents[j])
  }

  /** The entries, oldest first, after `history_add` of entry (None for NULL) to a buffer holding contents. */
  function Added(contents: seq<string>, capacity: nat, entry: Option<string>): (r: seq<string>)
    requires 0 < capacity && |contents| <= capacity
    ensures |r| <= capacity
  {
    match entry
    case None => contents
    case Some(s) =>
      var t := TrimmedEnd(s);
      if t == [] || t in contents then contents
      else if |contents| < capacity then contents + [t]
      else contents[1..] + [t]
  }

  /** The slot i places after slot head in a ring of capacity slots. */
  function Ring(head: nat, i: nat, capacity: nat): nat
    requires capacity > 0
  {
    (head + i) % capacity
  }

  /**
   * Writing the entry t over the oldest slot of a full ring and moving head
   * one slot on lays out the entries after the oldest, then t.
   */
  lemma RotatedSlots(slots: seq<Option<string>>, head: nat, contents: seq<string>, t: string)
    requires 0 < |slots| == |contents| && head < |slots|
    requires forall i :: 0 <= i < |contents| ==> slots[Ring(head, i, |slots|)] == Some(contents[i])
    ensures forall i :: 0 <= i < |contents| ==>
      slots[head := Some(t)][Ring((head + 1) % |slots|, i, |slots|)] == Some((contents[1..] + [t])[i])
  {
    var n := |slots|;
    var next := (head + 1) % n;
    ModBelowTwice(head + 1, n);
    forall i | 0 <= i < n
      ensures slots[head := Some(t)][Ring(next, i, n)] == Some((contents[1..] + [t])[i])
    {
      ModBelowTwice(next + i, n);
      ModBelowTwice(head + i + 1, n);
      if i < n - 1 {
        assert Ring(next, i, n) == Ring(head, i + 1, n) != head;
      } else {
        assert Ring(next, i, n) == head;
      }
    }
  }

  /** For 0 <= x < 2c, x % c without the division. */
  lemma ModBelowTwice(x: nat, c: nat)
    requires 0 < c && x < 2 * c
    ensures x % c == if x < c then x else x - c
  {
  }

  class History {
    const capacity: nat
    const entries: array<Option<string>>
    var size: nat
    /** The slot of the oldest entry. */
    var head: nat
    /** The slot the next entry is written to. */
    var tail: nat
    ghost var Contents: seq<string>

    ghost predicate Valid()
      reads this, entries
    {
      && 0 < capacity == entries.Length
      && size <= capacity && head < capacity && tail < capacity
      && tail == (head + size) % capacity
      && |Contents| == size
      && (forall i :: 0 <= i < size ==> entries[Ring(head, i, capacity)] == Some(Contents[i]))
      && Admissible(Contents)
    }

    /** `history_create` for a capacity it accepts: every slot NULL, nothing held. */
    constructor (cap: nat)
      requires cap > 0
      ensures Valid() && fresh(entries)
      ensures capacity == cap && Contents == []
      ensures size == 0 && head == 0 && tail == 0
      ensures forall k :: 0 <= k < entries.Length ==> entries[k].None?
    {
      var a := new Option<string>[cap];
      var i := 0;
      while i < cap
        invariant 0 <= i <= cap
        invariant forall k :: 0 <= k < i ==> a[k].None?
      {
        a[i] := None;
        i := i + 1;
      }
      capacity := cap;
      entries := a;
      size, head, tail := 0, 0, 0;
      Contents := [];
    }

    /** `history_get`: the entry index places from the oldest, NULL past the newest. */
    function Get(index: nat): (e: Option<string>)
      requires Valid()
      reads this, entries
      ensures e.Some? <==> index < |Contents|
      ensures e.Some? ==> e.value == Contents[index]
    {
      if index >= size then None
      else
        assert entries[Ring(head, index, capacity)] == Some(Contents[index]);
        entries[(head + index) % capacity]
    }

    /** `history_size` */
    function Size(): (n: nat)
      requires Valid()
      reads this, entries
      ensures n == |Contents|
    {
      size
    }

    /** `history_add` */
    method Add(entry: Option<string>)
      requires Valid()
      requires entry.Some? ==> IsCString(entry.value)
      modifies this, entries
      ensures Valid()
      ensures Contents == Added(old(Contents), capacity, entry)
      ensures Contents == old(Contents) ==> unchanged(this) && unchanged(entries)
    {
      if entry.None? {
        return;
      }
      var t := StripTrailingWhitespace(entry.value);
      if |t| == 0 {
        return;
      }
      var i := 0;
      while i < size
        invariant 0 <= i <= size
        invariant t !in Contents[..i]
      {
        var e := Get(i);
        if e == Some(t) {
          return;
        }
        assert Contents[..i + 1] == Contents[..i] + [Contents[i]];
        i := i + 1;
      }
      assert Contents[..size] == Contents;
      AddedAdmissible(Contents, capacity, entry);
      if size < capacity {
        WriteAtEnd(t);
      } else {
        Overwrite(t);
      }
      assert Contents[|Contents| - 1] == t && t !in old(Contents);
    }

    /** The store of `history_add` when the buffer has room: the entry goes after the newest. */
    method WriteAtEnd(t: string)
      requires Valid() && size < capacity
      requires Admissible(Contents + [t])
      modifies this, entries
      ensures Valid() && Contents == old(Contents) + [t]
    {
      ModBelowTwice(head + size, capacity);
      forall i | 0 <= i < size
        ensures Ring(head, i, capacity) != tail
      {
        ModBelowTwice(head + i, capacity);
      }
      entries[tail] := Some(t);
      size := size + 1;
      ModBelowTwice(tail + 1, capacity);
      tail := (tail + 1) % capacity;
      Contents := Contents + [t];
      assert tail == (head + size) % capacity by {
        ModBelowTwice(head + size, capacity);
      }
    }

    /** The store of `history_add` when the buffer is full: the oldest entry is replaced and head moves on. */
    method Overwrite(t: string)
      requires Valid() && size == capacity
      requires Admissible(Contents[1..] + [t])
      modifies this, entries
      ensures Valid() && Contents == old(Contents)[1..] + [t]
    {
      ghost var slots := entries[..];
      ghost var oldHead := head;
      assert tail == head by {
        ModBelowTwice(head + size, capacity);
      }
      RotatedSlots(slots, head, Contents, t);
      entries[tail] := Some(t);
      assert entries[..] == slots[oldHead := Some(t)];
      ModBelowTwice(head + 1, capacity);
      head := (head + 1) % capacity;
      tail := (tail + 1) % capacity;
      Contents := Contents[1..] + [t];
      ModBelowTwice(head + size, capacity);
    }

    /** `history_clear`: every slot NULL, nothing held. */
    method Clear()
      requires Valid()
      modifies this, entries
      ensures Valid() && Contents == []
      ensures size == 0 && head == 0 && tail == 0
      ensures forall k :: 0 <= k < entries.Length ==> entries[k].None?
    {
      var i := 0;
      while i < capacity
        invariant 0 <= i <= capacity
        invariant forall k :: 0 <= k < i ==> entries[k].None?
      {
        entries[i] := None;
        i := i + 1;
      }
      size, head, tail := 0, 0, 0;
      Contents := [];
    }

    /** `tail` is the slot after the newest entry. */
    lemma TailFollowsNewest()
      requires Valid() && size > 0
      ensures entries[(tail + capacity - 1) % capacity] == Some(Contents[size - 1])
    {
      ModBelowTwice(head + size, capacity);
      ModBelowTwice(head + size - 1, capacity);
      ModBelowTwice(tail + capacity - 1, capacity);
    }
  }

  /** `history_create`: NULL for capacity 0, otherwise an empty history. */
  method Create(capacity: nat) returns (h: History?)
    ensures h == null <==> capacity == 0
    ensures h != null ==> fresh(h) && fresh(h.entries) && h.Valid() && h.capacity == capacity && h.Contents == []
    ensures h != null ==> h.size == 0 && h.head == 0 && h.tail == 0
    ensures h != null ==> forall k :: 0 <= k < h.entries.Length ==> h.entries[k].None?
  {
    if capacity == 0 {
      return null;
    }
    h := new History(capacity);
  }

  // ---- Properties of Added ----

  /** Trimming is idempotent. */
  lemma TrimmedEndIdempotent(s: string)
    ensures TrimmedEnd(TrimmedEnd(s)) == TrimmedEnd(s)
  {
  }

  /** Adding keeps what the buffer holds admissible and within its capacity. */
  lemma AddedAdmissible(contents: seq<string>, capacity: nat, entry: Option<string>)
    requires 0 < capacity && |contents| <= capacity && Admissible(contents)
    ensures Admissible(Added(contents, capacity, entry))
  {
    if entry.Some? {
      var t := TrimmedEnd(entry.value);
      TrimmedEndIdempotent(entry.value);
      if t != [] && t !in contents {
        var kept := if |contents| < capacity then contents else contents[1..];
        assert Admissible(kept);
        AppendAdmissible(kept, t);
      }
    }
  }

  lemma AppendAdmissible(contents: seq<string>, t: string)
    requires Admissible(contents) && t != [] && TrimmedEnd(t) == t && t !in contents
    ensures Admissible(contents + [t])
  {
    var r := contents + [t];
    forall i, j | 0 <= i < j < |r|
      ensures r[i] != r[j]
    {
      if j < |contents| {
        assert r[i] == contents[i] && r[j] == contents[j];
      } else {
        assert r[i] == contents[i];
      }
    }
  }

  /**
   * Added in terms of its outcome: an entry that trims to nothing or to an
   * entry already held changes nothing (the held entry keeps its place);
   * otherwise the trimmed entry becomes the newest and, in a full buffer, the
   * oldest is dropped.
   */
  lemma AddedOutcome(contents: seq<string>, capacity: nat, s: string)
    requires 0 < capacity && |contents| <= capacity
    ensures var t, r := TrimmedEnd(s), Added(contents, capacity, Some(s));
      && (t == [] || t in contents ==> r == contents)
      && (t != [] && t !in contents ==>
            && |r| == (if |contents| < capacity then |contents| + 1 else capacity)
            && r[|r| - 1] == t
            && r[..|r| - 1] == contents[|contents| - (|r| - 1)..])
  {
    var t := TrimmedEnd(s);
    if t != [] && t !in contents {
      var r := Added(contents, capacity, Some(s));
      if |contents| < capacity {
        assert r == contents + [t];
        assert r[..|r| - 1] == contents == contents[0..];
      } else {
        assert r == contents[1..] + [t];
        assert r[..|r| - 1] == contents[1..];
      }
    }
  }

  /** Adding the same entry twice is adding it once. */
  lemma AddedIdempotent(contents: seq<string>, capacity: nat, entry: Option<string>)
    requires 0 < capacity && |contents| <= capacity
    ensures Added(Added(contents, capacity, entry), capacity, entry) == Added(contents, capacity, entry)
  {
    if entry.Some? {
      var t := TrimmedEnd(entry.value);
      var r := Added(contents, capacity, entry);
      assert t != [] && t !in contents ==> r[|r| - 1] == t;
    }
  }

  /** Trailing white space appended to an entry does not change it. */
  lemma {:induction false} TrimmedEndIgnoresTrailingSpace(s: string, w: string)
    requires forall k :: 0 <= k < |w| ==> IsTrailingSpace(w[k])
    ensures TrimmedEnd(s + w) == TrimmedEnd(s)
  {
    if |w| > 0 {
      assert (s + w)[..|s + w| - 1] == s + w[..|w| - 1];
      TrimmedEndIgnoresTrailingSpace(s, w[..|w| - 1]);
    } else {
      assert s + w == s;
    }
  }

  lemma AddedIgnoresTrailingSpace(contents: seq<string>, capacity: nat, s: string, w: string)
    requires 0 < capacity && |contents| <= capacity
    requires forall k :: 0 <= k < |w| ==> IsTrailingSpace(w[k])
    ensures Added(contents, capacity, Some(s + w)) == Added(contents, capacity, Some(s))
  {
    TrimmedEndIgnoresTrailingSpace(s, w);
  }

  // ---- The scenarios of the unit tests, for any entries ----

  /** An entry `history_add` stores as it is: a non-empty C string without trailing white space. */
  predicate Storable(s: string)
  {
    |s| > 0 && !IsTrailingSpace(s[|s| - 1]) && IsCString(s)
  }

  /** Adding a storable entry not yet held, to a buffer with room, appends it. */
  lemma AddedFresh(contents: seq<string>, capacity: nat, s: string)
    requires |contents| < capacity
    requires Storable(s) && s !in contents
    ensures Added(contents, capacity, Some(s)) == contents + [s]
  {
  }

  /** Three different entries in a buffer of three are recalled oldest first. */
  method AddAndRecall(a: string, b: string, c: string) returns (first: Option<string>, second: Option<string>, third: Option<string>)
    requires Storable(a) && Storable(b) && Storable(c)
    requires a != b && a != c && b != c
    ensures first == Some(a) && second == Some(b) && third == Some(c)
  {
    var h := new History(3);
    AddedFresh([], 3, a);
    h.Add(Some(a));
    AddedFresh([a], 3, b);
    h.Add(Some(b));
    AddedFresh([a, b], 3, c);
    h.Add(Some(c));
    first := h.Get(0);
    second := h.Get(1);
    third := h.Get(2);
  }

  /** A third different entry in a buffer of two overwrites the oldest. */
  method CircularOverwrite(a: string, b: string, c: string) returns (oldest: Option<string>, newest: Option<string>, n: nat)
    requires Storable(a) && Storable(b) && Storable(c)
    requires a != b && a != c && b != c
    ensures oldest == Some(b) && newest == Some(c) && n == 2
  {
    var h := new History(2);
    AddedFresh([], 2, a);
    h.Add(Some(a));
    AddedFresh([a], 2, b);
    h.Add(Some(b));
    assert [a, b][1..] + [c] == [b, c];
    h.Add(Some(c));
    oldest := h.Get(0);
    newest := h.Get(1);
    n := h.Size();
  }

  /** After a clear nothing is held. */
  method ClearEmpties(a: string, b: string) returns (n: nat, e: Option<string>)
    requires IsCString(a) && IsCString(b)
    ensures n == 0 && e == None
  {
    var h := new History(5);
    h.Add(Some(a));
    h.Add(Some(b));
    h.Clear();
    n := h.Size();
    e := h.Get(0);
  }

  /**
   * An entry that differs from a held one only by trailing white space is not
   * stored again, and one made of white space only is not stored at all.
   */
  method TrimmedDuplicateIgnored(s: string, w: string) returns (n: nat, e: Option<string>)
    requires Storable(s) && IsCString(w)
    requires forall k :: 0 <= k < |w| ==> IsTrailingSpace(w[k])
    ensures n == 1 && e == Some(s)
  {
    var h := new History(4);
    AddedFresh([], 4, s);
    h.Add(Some(s));
    AddedIgnoresTrailingSpace([s], 4, s, w);
    assert IsCString(s + w);
    h.Add(Some(s + w));
    AddedIgnoresTrailingSpace([s], 4, [], w);
    assert [] + w == w;
    h.Add(Some(w));
    n := h.Size();
    e := h.Get(0);
  }
}
