/** The size-accounted caches of local files and of tunneled responses: a map of entry objects, a 64-bit size
    counter, and an eviction that scans for a victim. */
module FileCache {
  import opened Octets

  type Name = string

  // ---- Totals over a map of contents ----

  type Contents = map<Name, Bytes>

  ghost function Total(c: Contents): nat
    decreases c.Keys
  {
    if c == map[] then 0
    else
      var k :| k in c;
      |c[k]| + Total(c - {k})
  }

  lemma {:induction false} TotalWithout(c: Contents, k: Name)
    requires k in c
    ensures Total(c) == |c[k]| + Total(c - {k})
    decreases c.Keys
  {
    var j :| j in c && Total(c) == |c[j]| + Total(c - {j});
    if j != k {
      TotalWithout(c - {j}, k);
      TotalWithout(c - {k}, j);
      assert c - {j} - {k} == c - {k} - {j};
    }
  }

  lemma TotalWith(c: Contents, k: Name, data: Bytes)
    ensures Total(c[k := data]) == Total(c - {k}) + |data|
  {
    TotalWithout(c[k := data], k);
    assert c[k := data] - {k} == c - {k};
  }

  // ---- The scan ----

  /** One comparison, with the times at its two locks. */
  predicate Takes(now: nat, then_: nat, curr: nat, oldest: nat) {
    now < then_ || (then_ > 0 && curr < oldest)
  }

  /** The victim among entries of these lengths, when lock `i` falls at time `clock(i)`. */
  function Victim(lens: seq<nat>, clock: nat -> nat): (v: nat)
    ensures lens != [] ==> v < |lens|
  {
    if |lens| <= 1 then 0
    else
      var c := |lens| - 1;
      var v := Victim(lens[..c], clock);
      if Takes(clock(2 * c), clock(2 * c + 1), lens[c], lens[v]) then c else v
  }

  lemma VictimStep(lens: seq<nat>, clock: nat -> nat, c: nat)
    requires c < |lens|
    ensures var v := Victim(lens[..c], clock);
            Victim(lens[..c + 1], clock) ==
            (if c > 0 && !Takes(clock(2 * c), clock(2 * c + 1), lens[c], lens[v]) then v else c)
  {
    assert lens[..c + 1][..c] == lens[..c];
  }

  /** The last of `n` entries between whose two locks the second turned; the first entry when there is none. */
  function LastTurn(clock: nat -> nat, n: nat): (s: nat)
    ensures n > 0 ==> s < n
    ensures forall c | s < c < n :: clock(2 * c) >= clock(2 * c + 1)
    ensures s > 0 ==> clock(2 * s) < clock(2 * s + 1)
  {
    if n <= 1 then 0
    else if clock(2 * (n - 1)) < clock(2 * (n - 1) + 1) then n - 1
    else LastTurn(clock, n - 1)
  }

  /** Entry `v` is the first of the shortest among those from `s` on. */
  ghost predicate FirstShortest(lens: seq<nat>, s: nat, v: nat) {
    && s <= v < |lens|
    && (forall i | s <= i < v :: lens[v] < lens[i])
    && (forall i | v <= i < |lens| :: lens[v] <= lens[i])
  }

  /** Access times never decide: the victim is the first of the shortest, counted from the last entry between
      whose locks the second turned. */
  lemma {:induction false} VictimExactly(lens: seq<nat>, clock: nat -> nat)
    requires lens != [] && forall i :: clock(i) > 0
    ensures FirstShortest(lens, LastTurn(clock, |lens|), Victim(lens, clock))
  {
    if |lens| > 1 {
      VictimExactly(lens[..|lens| - 1], clock);
    }
  }

  /** An access time of 0 decides nothing: on a clock that stands at 0 the scan stays with the first entry. */
  lemma {:induction false} NoneAtZero(lens: seq<nat>, clock: nat -> nat)
    requires forall i :: clock(i) == 0
    ensures Victim(lens, clock) == 0
  {
    if |lens| > 1 {
      NoneAtZero(lens[..|lens| - 1], clock);
    }
  }

  // ---- Entries ----

  /** A cached body.  Every lock of an entry stamps its access time. */
  class Entry {
    const data: Bytes
    var tAccess: nat

    constructor (data: Bytes, now: nat)
      ensures this.data == data && tAccess == now
    {
      this.data, tAccess := data, now;
    }

    method Lock(now: nat)
      modifies this
      ensures tAccess == now
    {
      tAccess := now;
    }
  }

  ghost function ContentsOf(files: map<Name, Entry>): (c: Contents)
    ensures c.Keys == files.Keys
    ensures forall k | k in files :: c[k] == files[k].data
  {
    map k | k in files :: files[k].data
  }

  /** No entry object is under two names. */
  ghost predicate NoneShared(files: map<Name, Entry>) {
    forall j, k | j in files && k in files && j != k :: files[j] != files[k]
  }

  lemma FilesUpdate(files: map<Name, Entry>, name: Name, entry: Entry)
    requires NoneShared(files) && entry !in files.Values
    ensures NoneShared(files[name := entry])
    ensures ContentsOf(files[name := entry]) == ContentsOf(files)[name := entry.data]
  {
    assert forall k | k in files :: files[k] in files.Values;
  }

  lemma FilesRemove(files: map<Name, Entry>, name: Name)
    requires NoneShared(files)
    ensures NoneShared(files - {name})
    ensures ContentsOf(files - {name}) == ContentsOf(files) - {name}
  {
  }

  /** The map's names in the order it is walked, each once. */
  ghost predicate Walks(order: seq<Name>, c: Contents) {
    && (forall k :: k in order <==> k in c)
    && (forall i, j | 0 <= i < j < |order| :: order[i] != order[j])
  }

  ghost function Lens(c: Contents, order: seq<Name>): (lens: seq<nat>)
    requires Walks(order, c)
    ensures |lens| == |order|
    ensures forall i | 0 <= i < |order| :: lens[i] == |c[order[i]]|
  {
    seq(|order|, i requires 0 <= i < |order| => |c[order[i]]|)
  }

  datatype Pushed = Stored | NoVictim

  class MemoryCache {
    var files: map<Name, Entry>
    var size: nat
    const budget: nat

    ghost function Contents(): Contents
      reads this
    {
      ContentsOf(files)
    }

    /** The size counter is the sum of the lengths, in the 64 bits it has; no entry object is shared. */
    ghost predicate Valid()
      reads this
    {
      size == Total(Contents()) % TWO_64 && NoneShared(files)
    }

    constructor (budget: nat)
      ensures Valid() && Contents() == map[] && this.budget == budget
    {
      this.budget := budget;
      files, size := map[], 0;
      new;
      assert Contents() == map[];
    }

    /** One comparison of the scan, with the times at its two locks: whether the current entry is the new
        candidate.  The test on equal access times assigns instead of comparing. */
    static method Older(curr: Entry, oldest: Entry, now: nat, then_: nat) returns (takes: bool)
      requires curr != oldest
      modifies curr, oldest
      ensures takes == Takes(now, then_, |curr.data|, |oldest.data|)
    {
      curr.Lock(now);
      oldest.Lock(then_);
      if curr.tAccess < oldest.tAccess {
        takes := true;
      } else {
        takes := oldest.tAccess != 0 && |curr.data| < |oldest.data|;
        curr.tAccess := if takes then 1 else 0;
      }
    }

    /** The scan for a victim in map order; `clock` gives the time at each lock. */
    method FindOldest(order: seq<Name>, clock: nat -> nat) returns (victim: nat)
      requires Valid() && order != [] && Walks(order, Contents())
      modifies files.Values
      ensures victim < |order| && victim == Victim(Lens(Contents(), order), clock)
    {
      hide Victim, Takes, Total, ContentsOf;
      ghost var lens := Lens(Contents(), order);
      victim := 0;
      var c := 1;
      VictimStep(lens, clock, 0);
      while c < |order|
        invariant 1 <= c <= |order| && victim < c
        invariant victim == Victim(lens[..c], clock)
        modifies files.Values
      {
        assert order[c] in order && order[victim] in order;
        var curr, oldest := files[order[c]], files[order[victim]];
        assert lens[c] == |curr.data| && lens[victim] == |oldest.data|;
        VictimStep(lens, clock, c);
        var takes := Older(curr, oldest, clock(2 * c), clock(2 * c + 1));
        if takes {
          victim := c;
        }
        c := c + 1;
      }
      assert lens[..c] == lens;
    }

    /** Takes a length off the counter. */
    method Deduct(ghost total: nat, length: nat)
      requires size == total % TWO_64 && length <= total
      modifies this`size
      ensures size == (total - length) % TWO_64
    {
      ModDifference(total, length);
      size := (size + TWO_64 - length % TWO_64) % TWO_64;
    }

    /** Adds a length to the counter. */
    method Credit(ghost total: nat, length: nat)
      requires size == total % TWO_64
      modifies this`size
      ensures size == (total + length) % TWO_64
    {
      ModSum(total, length);
      size := (size + length) % TWO_64;
    }

    /** A name that is cached already: the entry is replaced. */
    method Replace(name: Name, data: Bytes, now: nat)
      requires Valid() && name in files
      modifies this
      ensures Valid() && Contents() == old(Contents())[name := data]
    {
      hide Total, NoneShared, ContentsOf;
      ghost var before := Contents();
      ghost var rest := Total(before - {name});
      TotalWithout(before, name);
      TotalWith(before, name, data);
      var entry := new Entry(data, now);
      Deduct(rest + |before[name]|, |files[name].data|);
      FilesUpdate(files, name, entry);
      files := files[name := entry];
      Credit(rest, |data|);
    }

    /** Room by evicting one entry. */
    method Evict(order: seq<Name>, clock: nat -> nat) returns (victim: nat)
      requires Valid() && order != [] && Walks(order, Contents())
      modifies this, files.Values
      ensures victim < |order| && Valid() && Contents() == old(Contents()) - {order[victim]}
      ensures victim == Victim(Lens(old(Contents()), order), clock)
    {
      hide Total, NoneShared, ContentsOf, Victim, Lens;
      ghost var before := Contents();
      victim := FindOldest(order, clock);
      assert order[victim] in order;
      var name := order[victim];
      TotalWithout(before, name);
      Deduct(Total(before), |files[name].data|);
      FilesRemove(files, name);
      files := files - {name};
    }

    /** A name that is not cached is added. */
    method Insert(name: Name, data: Bytes, now: nat)
      requires Valid() && name !in files
      modifies this
      ensures Valid() && Contents() == old(Contents())[name := data]
    {
      hide Total, NoneShared, ContentsOf;
      ghost var before := Contents();
      var entry := new Entry(data, now);
      FilesUpdate(files, name, entry);
      files := files[name := entry];
      Credit(Total(before), |data|);
      TotalWith(before, name, data);
      assert before - {name} == before;
    }

    /** The push of a body under a name; `order` is the order in which the map is walked. */
    method Push(name: Name, data: Bytes, order: seq<Name>, clock: nat -> nat) returns (r: Pushed)
      requires Valid() && Walks(order, Contents())
      modifies this, files.Values
      ensures Valid()
      ensures r == NoVictim <==> old(Contents()) == map[] && budget == 0
      ensures var before := old(Contents());
              if r == NoVictim then Contents() == before
              else if name in before || old(size) < budget then Contents() == before[name := data]
              else
                var v := Victim(Lens(before, order), clock);
                v < |order| && Contents() == (before - {order[v]})[name := data]
    {
      hide Total, Victim, Lens;
      if name in files {
        Replace(name, data, clock(0));
        return Stored;
      }
      if size >= budget {
        if order == [] {
          EmptyWalk(Contents());
          return NoVictim;
        }
        ghost var before := Contents();
        var v := Evict(order, clock);
        assert name !in Contents();
        Insert(name, data, clock(0));
        assert Contents() == (before - {order[v]})[name := data];
        return Stored;
      }
      Insert(name, data, clock(0));
      return Stored;
    }
  }

  /** A push that evicts keeps the number of entries. */
  lemma EvictionKeepsCount(c: Contents, victim: Name, name: Name, data: Bytes)
    requires victim in c && name !in c
    ensures |(c - {victim})[name := data]| == |c|
  {
    var kept := c - {victim};
    assert c.Keys == kept.Keys + {victim};
    assert kept[name := data].Keys == kept.Keys + {name};
  }

  /** What eviction does to the total: it falls exactly when the new body is shorter than every entry walked
      since the second last turned, so than every entry when it did not. */
  lemma EvictionShrinksExactly(c: Contents, order: seq<Name>, clock: nat -> nat, name: Name, data: Bytes)
    requires order != [] && Walks(order, c) && name !in c
    requires forall i :: clock(i) > 0
    ensures var lens := Lens(c, order);
            var victim := order[Victim(lens, clock)];
            var after := (c - {victim})[name := data];
            && victim in c
            && Total(after) == Total(c) - |c[victim]| + |data|
            && (Total(after) < Total(c) <==>
                  forall i | LastTurn(clock, |order|) <= i < |order| :: |data| < |c[order[i]]|)
  {
    hide Total, Victim, LastTurn, Lens;
    var victim := order[Victim(Lens(c, order), clock)];
    assert victim in order;
    VictimIsShortest(c, order, clock);
    EvictionTotal(c, victim, name, data);
  }

  lemma VictimIsShortest(c: Contents, order: seq<Name>, clock: nat -> nat)
    requires order != [] && Walks(order, c)
    requires forall i :: clock(i) > 0
    ensures var v := Victim(Lens(c, order), clock);
            && LastTurn(clock, |order|) <= v
            && (forall i | LastTurn(clock, |order|) <= i < |order| :: |c[order[v]]| <= |c[order[i]]|)
  {
    hide Victim, LastTurn;
    var lens := Lens(c, order);
    var v := Victim(lens, clock);
    VictimExactly(lens, clock);
    forall i | LastTurn(clock, |order|) <= i < |order|
      ensures |c[order[v]]| <= |c[order[i]]|
    {
      assert lens[v] <= lens[i];
    }
  }

  lemma EvictionTotal(c: Contents, victim: Name, name: Name, data: Bytes)
    requires victim in c && name !in c
    ensures Total((c - {victim})[name := data]) == Total(c) - |c[victim]| + |data|
  {
    hide Total;
    var kept := c - {victim};
    TotalWithout(c, victim);
    TotalWith(kept, name, data);
    assert kept - {name} == kept;
  }

  lemma EmptyWalk(c: Contents)
    requires Walks([], c)
    ensures c == map[] && Total(c) == 0
  {
  }

  lemma ModDifference(total: nat, length: nat)
    requires length <= total
    ensures (total % TWO_64 + TWO_64 - length % TWO_64) % TWO_64 == (total - length) % TWO_64
  {
  }

  lemma ModSum(total: nat, more: nat)
    ensures (total % TWO_64 + more) % TWO_64 == (total + more) % TWO_64
  {
  }
}
