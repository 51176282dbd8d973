/** The decoder's dynamic table: an integer-keyed map shifted in place and limited by count, against the
    octet-limited table of RFC 7541 that a peer's encoder keeps. */
module HeaderTable {
  import opened Octets
  import opened HeaderText

  const STATIC_SIZE: nat := 61
  const MAX_ENTRIES: nat := 4096

  // ---- The map and its shift loop ----

  /** The table as a sequence, newest entry first. */
  function Inserted(entries: seq<Field>, f: Field): (r: seq<Field>)
    ensures |entries| <= MAX_ENTRIES ==> |r| <= MAX_ENTRIES
  {
    if f.name == [] then entries
    else [f] + entries[..Min(|entries|, MAX_ENTRIES - 1)]
  }

  ghost predicate Represents(table: map<int, Field>, entries: seq<Field>) {
    && |entries| <= MAX_ENTRIES
    && (forall k :: k in table <==> STATIC_SIZE < k <= STATIC_SIZE + |entries|)
    && (forall i | 0 <= i < |entries| :: table[STATIC_SIZE + 1 + i] == entries[i])
  }

  lemma {:induction false} Count(table: map<int, Field>, n: nat)
    requires forall k :: k in table <==> STATIC_SIZE < k <= STATIC_SIZE + n
    ensures |table| == n
  {
    if n == 0 {
      assert table.Keys == {};
    } else {
      var last := STATIC_SIZE + n;
      var rest := table - {last};
      assert last in table && last !in rest;
      Count(rest, n - 1);
      assert table.Keys == rest.Keys + {last};
      assert |table.Keys| == |rest.Keys| + 1;
    }
  }

  /** Of a table with the keys of `n` entries, those above the `y` newest that stay have moved one key up. */
  ghost predicate Shifted(before: map<int, Field>, table: map<int, Field>, n: nat, y: nat)
    requires forall k :: k in before <==> STATIC_SIZE < k <= STATIC_SIZE + n
  {
    var top := Min(n, MAX_ENTRIES - 1);
    && (forall k ::
          k in table <==> STATIC_SIZE < k <= STATIC_SIZE + n || (y < top && k == STATIC_SIZE + top + 1))
    && (y <= top ==> forall k | STATIC_SIZE < k <= STATIC_SIZE + y :: table[k] == before[k])
    && (forall k {:trigger before[k]} | STATIC_SIZE + y < k <= STATIC_SIZE + top :: table[k + 1] == before[k])
  }

  lemma NoneShifted(before: map<int, Field>, n: nat)
    requires forall k :: k in before <==> STATIC_SIZE < k <= STATIC_SIZE + n
    ensures Shifted(before, before, n, Min(n, MAX_ENTRIES - 1))
  {
  }

  lemma ShiftStep(before: map<int, Field>, table: map<int, Field>, n: nat, y: nat)
    requires forall k :: k in before <==> STATIC_SIZE < k <= STATIC_SIZE + n
    requires 1 <= y <= Min(n, MAX_ENTRIES - 1) && Shifted(before, table, n, y)
    ensures STATIC_SIZE + y in table
    ensures Shifted(before, table[STATIC_SIZE + y + 1 := table[STATIC_SIZE + y]], n, y - 1)
  {
    var top, key := Min(n, MAX_ENTRIES - 1), STATIC_SIZE + y;
    assert key in table && table[key] == before[key];
    var moved := table[key + 1 := table[key]];
    forall k {:trigger before[k]} | key <= k <= STATIC_SIZE + top
      ensures k + 1 in moved && moved[k + 1] == before[k]
    {
      if k > key {
        assert table[k + 1] == before[k];
      }
    }
  }

  lemma StoredFirst(before: map<int, Field>, table: map<int, Field>, entries: seq<Field>, f: Field)
    requires Represents(before, entries) && Shifted(before, table, |entries|, 0) && f.name != []
    ensures Represents(table[STATIC_SIZE + 1 := f], Inserted(entries, f))
  {
    var after, shifted := table[STATIC_SIZE + 1 := f], Inserted(entries, f);
    forall i | 0 <= i < |shifted|
      ensures STATIC_SIZE + 1 + i in after && after[STATIC_SIZE + 1 + i] == shifted[i]
    {
      if i > 0 {
        assert before[STATIC_SIZE + i] == entries[i - 1] == shifted[i];
      }
    }
  }

  class DynamicTable {
    var table: map<int, Field>
    ghost var entries: seq<Field>

    ghost predicate Valid()
      reads this
    {
      Represents(table, entries)
    }

    constructor ()
      ensures Valid() && entries == []
    {
      table, entries := map[], [];
    }

    /** The loop from the oldest entry that stays: each is copied one key up. */
    method Shift(ghost n: nat)
      requires forall k :: k in table <==> STATIC_SIZE < k <= STATIC_SIZE + n
      modifies this`table
      ensures Shifted(old(table), table, n, 0)
    {
      hide Shifted;
      Count(table, n);
      var size := |table|;
      var y := if size > 4095 then 4095 else size;
      ghost var before := table;
      NoneShifted(before, n);
      while y >= 1
        invariant 0 <= y <= Min(n, MAX_ENTRIES - 1) && Shifted(before, table, n, y)
      {
        ShiftStep(before, table, n, y);
        if STATIC_SIZE + y in table {
          table := table[STATIC_SIZE + y + 1 := table[STATIC_SIZE + y]];
        }
        y := y - 1;
      }
    }

    /** The insertion: shift every entry one key up, the last one out of a full table, and store at the first
        dynamic index.  A field whose name was not resolved is not stored. */
    method Insert(f: Field)
      requires Valid()
      modifies this
      ensures Valid() && entries == Inserted(old(entries), f)
    {
      if f.name == [] {
        return;
      }
      ghost var before := table;
      Shift(|entries|);
      StoredFirst(before, table, entries, f);
      table := table[STATIC_SIZE + 1 := f];
      entries := Inserted(entries, f);
    }

    /** The lookup of an index past the static table. */
    method Find(index: nat) returns (r: Option<Field>)
      requires Valid() && index > STATIC_SIZE
      ensures r == if index <= STATIC_SIZE + |entries| then Some(entries[index - STATIC_SIZE - 1]) else None
    {
      r := if index in table then Some(table[index]) else None;
    }
  }

  // ---- The table of RFC 7541 ----

  /** Section 4.1: name, value and 32 octets of overhead. */
  function EntrySize(f: Field): nat {
    |f.name| + |f.value| + 32
  }

  function TableSize(t: seq<Field>): nat {
    if t == [] then 0 else EntrySize(t[0]) + TableSize(t[1..])
  }

  const MAX_OCTETS: nat := 4096

  /** Section 4.4: the newest entries whose sizes add up to at most `room`. */
  function Keep(t: seq<Field>, room: nat): (k: seq<Field>)
    ensures k <= t
  {
    if t == [] || EntrySize(t[0]) > room then [] else [t[0]] + Keep(t[1..], room - EntrySize(t[0]))
  }

  /** Sections 2.3.2 and 4.4: make room by dropping the oldest; an entry larger than the table empties it. */
  function Added(t: seq<Field>, f: Field): seq<Field> {
    if EntrySize(f) > MAX_OCTETS then [] else [f] + Keep(t, MAX_OCTETS - EntrySize(f))
  }

  lemma {:induction false} KeptSize(t: seq<Field>, room: nat)
    ensures TableSize(Keep(t, room)) <= room
  {
    if t != [] && EntrySize(t[0]) <= room {
      KeptSize(t[1..], room - EntrySize(t[0]));
    }
  }

  lemma {:induction false} AtMost128(t: seq<Field>)
    ensures 32 * |t| <= TableSize(t)
  {
    if t != [] {
      AtMost128(t[1..]);
    }
  }

  // ---- Both tables over any history of insertions ----

  /** The peer's table after inserting `history`, oldest first. */
  function PeerTable(history: seq<Field>): seq<Field> {
    if history == [] then []
    else Added(PeerTable(history[..|history| - 1]), history[|history| - 1])
  }

  function CodeTable(history: seq<Field>): (t: seq<Field>)
    ensures |t| <= MAX_ENTRIES
  {
    if history == [] then []
    else Inserted(CodeTable(history[..|history| - 1]), history[|history| - 1])
  }

  ghost predicate Named(t: seq<Field>) {
    forall i | 0 <= i < |t| :: t[i].name != []
  }

  /** The history newest first, and what of it has a name. */
  function Newest(history: seq<Field>): (r: seq<Field>)
    ensures |r| == |history|
  {
    if history == [] then [] else [history[|history| - 1]] + Newest(history[..|history| - 1])
  }

  function OnlyNamed(t: seq<Field>): (r: seq<Field>)
    ensures Named(r)
  {
    if t == [] then [] else if t[0].name == [] then OnlyNamed(t[1..]) else [t[0]] + OnlyNamed(t[1..])
  }

  lemma {:induction false} PeerIsNewest(history: seq<Field>)
    ensures PeerTable(history) <= Newest(history)
    ensures TableSize(PeerTable(history)) <= MAX_OCTETS
  {
    hide Keep, EntrySize, TableSize;
    TableSizeOnce([], []);
    if history != [] {
      var h, f := history[..|history| - 1], history[|history| - 1];
      PeerIsNewest(h);
      if EntrySize(f) <= MAX_OCTETS {
        var kept := Keep(PeerTable(h), MAX_OCTETS - EntrySize(f));
        KeptSize(PeerTable(h), MAX_OCTETS - EntrySize(f));
        TableSizeOnce([f], kept);
        assert kept <= Newest(h);
        assert [f] + kept <= [f] + Newest(h);
      }
    }
  }

  lemma TableSizeOnce(first: seq<Field>, t: seq<Field>)
    requires |first| <= 1
    ensures TableSize([]) == 0
    ensures first != [] ==> TableSize(first + t) == EntrySize(first[0]) + TableSize(t)
  {
    if first != [] {
      assert (first + t)[1..] == t;
    }
  }

  lemma {:induction false} CodeIsNewestNamed(history: seq<Field>)
    ensures |CodeTable(history)| == Min(|OnlyNamed(Newest(history))|, MAX_ENTRIES)
    ensures CodeTable(history) <= OnlyNamed(Newest(history))
  {
    if history != [] {
      var h, f := history[..|history| - 1], history[|history| - 1];
      CodeIsNewestNamed(h);
      var n := Newest(history);
      assert n[0] == f && n[1..] == Newest(h);
    }
  }

  lemma {:induction false} NamedPrefixStays(p: seq<Field>, t: seq<Field>)
    requires p <= t && Named(p)
    ensures p <= OnlyNamed(t)
  {
    if p != [] {
      assert p[0].name != [] && p[1..] <= t[1..];
      NamedPrefixStays(p[1..], t[1..]);
    }
  }

  /** Main result: after any insertions, the peer's table is a prefix of the server's, so that every index
      the peer may use means the same entry on both sides, exactly when the peer's holds no empty name. */
  lemma TablesAgree(history: seq<Field>)
    ensures PeerTable(history) <= CodeTable(history) <==> Named(PeerTable(history))
  {
    var p, c, n := PeerTable(history), CodeTable(history), OnlyNamed(Newest(history));
    PeerIsNewest(history);
    CodeIsNewestNamed(history);
    AtMost128(p);
    if Named(p) {
      NamedPrefixStays(p, Newest(history));
      assert p <= n && |p| <= |c|;
    }
    if p <= c {
      forall i | 0 <= i < |p|
        ensures p[i].name != []
      {
        assert p[i] == n[i];
      }
    }
  }

  // ---- The peer's table against section 4 of RFC 7541 ----

  /** The size of a table: the lengths of names and values, and 32 for each entry. */
  function Octets32(t: seq<Field>): nat {
    if t == [] then 0 else |t[0].name| + |t[0].value| + 32 + Octets32(t[1..])
  }

  lemma OneInFront(f: Field, t: seq<Field>)
    ensures Octets32([f] + t) == |f.name| + |f.value| + 32 + Octets32(t)
  {
    assert ([f] + t)[1..] == t;
  }

  /** The longest beginning of `t` whose size is within `room`. */
  ghost predicate Longest(p: seq<Field>, t: seq<Field>, room: nat) {
    p <= t && Octets32(p) <= room && (|p| < |t| ==> Octets32(t[..|p| + 1]) > room)
  }

  lemma {:induction false} KeepsLongest(t: seq<Field>, room: nat)
    ensures Longest(Keep(t, room), t, room)
  {
    hide Octets32;
    NothingSized();
    if t != [] {
      var rest := t[1..];
      if EntrySize(t[0]) > room {
        OneInFront(t[0], []);
        assert t[..1] == [t[0]] + [];
      } else {
        KeepsLongest(rest, room - EntrySize(t[0]));
        var k := Keep(rest, room - EntrySize(t[0]));
        OneInFront(t[0], k);
        if |k| < |rest| {
          OneInFront(t[0], rest[..|k| + 1]);
          assert t[..|k| + 2] == [t[0]] + rest[..|k| + 1];
        }
      }
    }
  }

  lemma NothingSized()
    ensures Octets32([]) == 0
  {
  }

  /** After any insertions the table holds as many of the newest entries as fit 4096 octets, and no more. */
  lemma {:induction false} PeerIsLongest(history: seq<Field>)
    ensures Longest(PeerTable(history), Newest(history), 4096)
  {
    hide Octets32, Keep;
    NothingSized();
    if history != [] {
      var h, f := history[..|history| - 1], history[|history| - 1];
      PeerIsLongest(h);
      var before, n := PeerTable(h), Newest(history);
      assert n == [f] + Newest(h);
      if EntrySize(f) > MAX_OCTETS {
        OneInFront(f, []);
        assert n[..1] == [f] + [];
      } else {
        var k := Keep(before, MAX_OCTETS - EntrySize(f));
        KeepsLongest(before, MAX_OCTETS - EntrySize(f));
        OneInFront(f, k);
        if |k| < |Newest(h)| {
          var more := Newest(h)[..|k| + 1];
          OneInFront(f, more);
          assert n[..|k| + 2] == [f] + more;
          if |k| < |before| {
            assert more == before[..|k| + 1];
          } else {
            assert k == before;
          }
        }
      }
    }
  }
}
