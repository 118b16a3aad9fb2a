/** The proxy's lookup cache as a value: three slots held in two parallel
    columns, `hosts` (names) and `ips` (addresses), and the cursor of the slot
    the next insertion overwrites. The class `Proxy.Cache` keeps the same data
    in arrays; this module states what its operations do. */
module CacheModel {
  import opened Strings

  const Slots := 3

  datatype CacheState = CacheState(hosts: seq<string>, ips: seq<string>, cursor: int)

  /** One call `updateCache(key, message, status)`. */
  datatype Update = Update(key: string, message: string, status: int)

  predicate Valid(s: CacheState)
  {
    |s.hosts| == Slots && |s.ips| == Slots && 0 <= s.cursor < Slots
  }

  /** The zero-initialised globals at process start: every slot holds "". */
  const Empty := CacheState(["", "", ""], ["", "", ""], 0)

  /** Scan of one column from slot `i` on, returning as soon as a slot matches. */
  function Contains(column: seq<string>, key: string, i: nat): (r: bool)
    requires i <= |column|
    ensures r <==> exists j :: i <= j < |column| && column[j] == key
    decreases |column| - i
  {
    if i == |column| then false
    else if column[i] == key then true
    else Contains(column, key, i + 1)
  }

  /** `existsInCache`: type 1 looks the key up among the names, type 2 among
      the addresses, and any other type is never cached. */
  function Exists(s: CacheState, status: int, key: string): (r: bool)
    requires Valid(s)
    ensures r <==> (status == 1 && key in s.hosts) || (status == 2 && key in s.ips)
  {
    if status == 1 then Contains(s.hosts, key, 0)
    else if status == 2 then Contains(s.ips, key, 0)
    else false
  }

  /** `updateCache`: the slot under the cursor receives the pair (swapped for a
      reverse lookup, untouched for any other type) and the cursor always
      moves on by one, circularly. */
  function Updated(s: CacheState, key: string, message: string, status: int): (t: CacheState)
    requires Valid(s)
    ensures Valid(t)
    ensures t.cursor == (s.cursor + 1) % Slots
    ensures forall i :: 0 <= i < Slots && i != s.cursor ==> t.hosts[i] == s.hosts[i] && t.ips[i] == s.ips[i]
    ensures status == 1 ==> t.hosts[s.cursor] == key && t.ips[s.cursor] == message
    ensures status == 2 ==> t.hosts[s.cursor] == message && t.ips[s.cursor] == key
    ensures status != 1 && status != 2 ==> t.hosts == s.hosts && t.ips == s.ips
  {
    var next := (s.cursor + 1) % Slots;
    if status == 1 then CacheState(s.hosts[s.cursor := key], s.ips[s.cursor := message], next)
    else if status == 2 then CacheState(s.hosts[s.cursor := message], s.ips[s.cursor := key], next)
    else s.(cursor := next)
  }

  /** A run of updates, oldest first. */
  function ApplyAll(s: CacheState, ops: seq<Update>): CacheState
    requires Valid(s)
    decreases |ops|
  {
    if ops == [] then s
    else ApplyAll(Updated(s, ops[0].key, ops[0].message, ops[0].status), ops[1..])
  }

  /** The highest-indexed slot whose entry equals `key`, searched from the top. */
  function LastMatch(column: seq<string>, key: string): (r: Option<nat>)
    ensures r.Some? ==> r.value < |column| && column[r.value] == key
    ensures r.Some? ==> forall k :: r.value < k < |column| ==> column[k] != key
    ensures r.None? <==> key !in column
  {
    if |column| == 0 then None
    else if column[|column| - 1] == key then Some(|column| - 1)
    else LastMatch(column[..|column| - 1], key)
  }

  /** The value paired with the last matching key, or `reply` when none matches. */
  function ValueAtLastMatch(keys: seq<string>, values: seq<string>, key: string, reply: string): string
    requires |keys| == |values|
  {
    match LastMatch(keys, key)
    case Some(j) => values[j]
    case None => reply
  }

  /** What `retrieveQuery` leaves in the `reply` buffer: the opposite column of
      the last matching slot; untouched when no slot matches or the type is
      neither 1 nor 2. */
  function Retrieved(s: CacheState, key: string, status: int, reply: string): (r: string)
    requires Valid(s)
    ensures status != 1 && status != 2 ==> r == reply
    ensures status == 1 && key !in s.hosts ==> r == reply
    ensures status == 2 && key !in s.ips ==> r == reply
    ensures status == 1 && key in s.hosts ==>
              exists j :: 0 <= j < Slots && s.hosts[j] == key && r == s.ips[j]
                          && forall k :: j < k < Slots ==> s.hosts[k] != key
    ensures status == 2 && key in s.ips ==>
              exists j :: 0 <= j < Slots && s.ips[j] == key && r == s.hosts[j]
                          && forall k :: j < k < Slots ==> s.ips[k] != key
  {
    if status == 1 then ValueAtLastMatch(s.hosts, s.ips, key, reply)
    else if status == 2 then ValueAtLastMatch(s.ips, s.hosts, key, reply)
    else reply
  }

  /** The slot the cursor points at `n` updates after pointing at `c`. */
  function CursorAfter(c: int, n: nat): int
  {
    (c + n) % Slots
  }

  /** One circular step followed by n more is n + 1 steps. */
  lemma CursorAfterStep(c: int, n: nat)
    requires 0 <= c < Slots
    ensures CursorAfter((c + 1) % Slots, n) == CursorAfter(c, n + 1)
  {
    if c + 1 == Slots {
      assert (Slots + n) % Slots == n % Slots;
    }
  }

  /** After n updates the cursor has moved n slots on, whatever the types. */
  lemma {:induction false} CursorAdvances(s: CacheState, ops: seq<Update>)
    requires Valid(s)
    decreases |ops|
    ensures Valid(ApplyAll(s, ops))
    ensures ApplyAll(s, ops).cursor == CursorAfter(s.cursor, |ops|)
  {
    if ops != [] {
      var t := Updated(s, ops[0].key, ops[0].message, ops[0].status);
      CursorAdvances(t, ops[1..]);
      CursorAfterStep(s.cursor, |ops| - 1);
    }
  }

  /** A slot that none of the updates' cursor positions reaches keeps its entry. */
  lemma {:induction false} SlotUntouched(s: CacheState, ops: seq<Update>, w: int)
    requires Valid(s) && 0 <= w < Slots
    requires forall k :: 0 <= k < |ops| ==> CursorAfter(s.cursor, k) != w
    decreases |ops|
    ensures Valid(ApplyAll(s, ops))
    ensures ApplyAll(s, ops).hosts[w] == s.hosts[w] && ApplyAll(s, ops).ips[w] == s.ips[w]
  {
    CursorAdvances(s, ops);
    if ops != [] {
      var t := Updated(s, ops[0].key, ops[0].message, ops[0].status);
      assert CursorAfter(s.cursor, 0) != w;
      forall k | 0 <= k < |ops[1..]|
        ensures CursorAfter(t.cursor, k) != w
      {
        CursorAfterStep(s.cursor, k);
        assert CursorAfter(s.cursor, k + 1) != w;
      }
      SlotUntouched(t, ops[1..], w);
    }
  }

  /** Round-robin eviction: the slot filled by one insertion survives the next
      two updates of any kind, and the update after those lands on it again. */
  lemma RoundRobinEviction(s: CacheState, first: Update, between: seq<Update>, next: Update)
    requires Valid(s) && first.status in {1, 2} && |between| == Slots - 1
    ensures var s1 := Updated(s, first.key, first.message, first.status);
            var s3 := ApplyAll(s1, between);
            Valid(s3)
            && s3.hosts[s.cursor] == s1.hosts[s.cursor] && s3.ips[s.cursor] == s1.ips[s.cursor]
            && s3.cursor == s.cursor
            && (next.status == 1 ==> Updated(s3, next.key, next.message, 1).hosts[s.cursor] == next.key)
            && (next.status == 2 ==> Updated(s3, next.key, next.message, 2).ips[s.cursor] == next.key)
  {
    var s1 := Updated(s, first.key, first.message, first.status);
    CursorAdvances(s1, between);
    SlotUntouched(s1, between, s.cursor);
  }

  /** Right after an insertion the key is found in its own column. */
  lemma ExistsAfterUpdate(s: CacheState, key: string, message: string, status: int)
    requires Valid(s) && status in {1, 2}
    ensures Exists(Updated(s, key, message, status), status, key)
  {
  }

  /** Inserting a key that missed makes it retrievable with the stored value,
      in the direction it was inserted. */
  lemma InsertThenRetrieve(s: CacheState, key: string, message: string, status: int, reply: string)
    requires Valid(s) && status in {1, 2} && !Exists(s, status, key)
    ensures Exists(Updated(s, key, message, status), status, key)
    ensures Retrieved(Updated(s, key, message, status), key, status, reply) == message
  {
  }

  /** On a hit the reply buffer's previous contents do not matter. */
  lemma RetrievedOnHit(s: CacheState, key: string, status: int, r1: string, r2: string)
    requires Valid(s) && Exists(s, status, key)
    ensures Retrieved(s, key, status, r1) == Retrieved(s, key, status, r2)
    ensures status == 1 ==> exists j :: 0 <= j < Slots && s.hosts[j] == key && Retrieved(s, key, status, r1) == s.ips[j]
    ensures status == 2 ==> exists j :: 0 <= j < Slots && s.ips[j] == key && Retrieved(s, key, status, r1) == s.hosts[j]
  {
  }

  /** Where four consecutive forward insertions land: the fourth on the first's slot. */
  lemma FourInsertsLayout(s: CacheState, k0: string, k1: string, k2: string, k3: string,
                          m0: string, m1: string, m2: string, m3: string)
    requires Valid(s)
    ensures var t := Updated(Updated(Updated(Updated(s, k0, m0, 1), k1, m1, 1), k2, m2, 1), k3, m3, 1);
            var a, b, c := s.cursor, (s.cursor + 1) % Slots, (s.cursor + 2) % Slots;
            a != b && a != c && b != c && 0 <= b < Slots && 0 <= c < Slots
            && t.hosts[a] == k3 && t.hosts[b] == k1 && t.hosts[c] == k2
            && t.ips[a] == m3 && t.ips[b] == m1 && t.ips[c] == m2
  {
  }

  /** Lookups in a cache whose three slots hold three distinct pairs. */
  /** A key held in exactly one slot of its column retrieves that slot's partner. */
  lemma RetrievedUniqueSlot(t: CacheState, key: string, status: int, reply: string, j: nat)
    requires Valid(t) && (status == 1 || status == 2) && j < Slots
    requires status == 1 ==> t.hosts[j] == key && forall i :: 0 <= i < Slots && i != j ==> t.hosts[i] != key
    requires status == 2 ==> t.ips[j] == key && forall i :: 0 <= i < Slots && i != j ==> t.ips[i] != key
    ensures status == 1 ==> Retrieved(t, key, status, reply) == t.ips[j]
    ensures status == 2 ==> Retrieved(t, key, status, reply) == t.hosts[j]
  {
    var m := if status == 1 then LastMatch(t.hosts, key) else LastMatch(t.ips, key);
    assert m.Some? && m.value == j;
  }

  lemma ThreeDistinctPairs(t: CacheState, k0: string, k1: string, k2: string, k3: string,
                           m0: string, m1: string, m2: string, m3: string, reply: string, a: nat, b: nat, c: nat)
    requires Valid(t) && a < Slots && b < Slots && c < Slots && a != b && a != c && b != c
    requires k0 != k1 && k0 != k2 && k0 != k3 && k1 != k2 && k1 != k3 && k2 != k3
    requires m0 != m1 && m0 != m2 && m0 != m3 && m1 != m2 && m1 != m3 && m2 != m3
    requires t.hosts[a] == k3 && t.hosts[b] == k1 && t.hosts[c] == k2
    requires t.ips[a] == m3 && t.ips[b] == m1 && t.ips[c] == m2
    ensures !Exists(t, 1, k0) && !Exists(t, 2, m0)
    ensures Retrieved(t, k1, 1, reply) == m1 && Retrieved(t, m1, 2, reply) == k1
    ensures Retrieved(t, k2, 1, reply) == m2 && Retrieved(t, m2, 2, reply) == k2
    ensures Retrieved(t, k3, 1, reply) == m3 && Retrieved(t, m3, 2, reply) == k3
  {
    RetrievedUniqueSlot(t, k1, 1, reply, b);
    RetrievedUniqueSlot(t, k2, 1, reply, c);
    RetrievedUniqueSlot(t, k3, 1, reply, a);
    RetrievedUniqueSlot(t, m1, 2, reply, b);
    RetrievedUniqueSlot(t, m2, 2, reply, c);
    RetrievedUniqueSlot(t, m3, 2, reply, a);
  }

  /** Four forward insertions of distinct names with distinct replies: the
      first pair can no longer be found in either direction, while the other
      three are found in both. */
  lemma FourthInsertEvictsFirst(s: CacheState, k0: string, k1: string, k2: string, k3: string,
                                m0: string, m1: string, m2: string, m3: string, reply: string)
    requires Valid(s)
    requires k0 != k1 && k0 != k2 && k0 != k3 && k1 != k2 && k1 != k3 && k2 != k3
    requires m0 != m1 && m0 != m2 && m0 != m3 && m1 != m2 && m1 != m3 && m2 != m3
    ensures var t := Updated(Updated(Updated(Updated(s, k0, m0, 1), k1, m1, 1), k2, m2, 1), k3, m3, 1);
            !Exists(t, 1, k0) && !Exists(t, 2, m0)
            && Retrieved(t, k1, 1, reply) == m1 && Retrieved(t, m1, 2, reply) == k1
            && Retrieved(t, k2, 1, reply) == m2 && Retrieved(t, m2, 2, reply) == k2
            && Retrieved(t, k3, 1, reply) == m3 && Retrieved(t, m3, 2, reply) == k3
  {
    var t := Updated(Updated(Updated(Updated(s, k0, m0, 1), k1, m1, 1), k2, m2, 1), k3, m3, 1);
    FourInsertsLayout(s, k0, k1, k2, k3, m0, m1, m2, m3);
    ThreeDistinctPairs(t, k0, k1, k2, k3, m0, m1, m2, m3, reply,
                       s.cursor, (s.cursor + 1) % Slots, (s.cursor + 2) % Slots);
  }
}
