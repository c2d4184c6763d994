/** The participant list the operator console shows after it fetches the
    roster (`fetchParticipants` and `fetchParticipantsOnLogin` in
    src/App.tsx): the rows are keyed by id, ordered by the time of their
    first stored check-in, newest first, and re-keyed. Check-in times are
    integer timestamps (milliseconds), already parsed. */
module Roster {
  import opened Optional

  /** A participant record as the server sends it. `checkIns` is `None` when
      the field is missing; `signedToday` is only computed on the client. */
  datatype Participant = Participant(
    id: string,
    name: string,
    ename: string,
    voice: string,
    isValid: bool,
    checkIns: Option<seq<int>>,
    signedToday: bool)

  /** The set of ids present in a list. */
  function IdsOf(s: seq<Participant>): set<string> {
    set p | p in s :: p.id
  }

  /** No id occurs twice: the list is the values of an id-keyed object. */
  predicate DistinctIds(s: seq<Participant>) {
    forall i, j :: 0 <= i < j < |s| ==> s[i].id != s[j].id
  }

  // ---------------------------------------------------------------------
  // Keying by id: `participantsData[p.id] = p` for every row

  /** One assignment `obj[p.id] = p` on an object whose values are listed in
      key-insertion order: an existing key keeps its place and takes the new
      value, a new key goes last. */
  function Put(entries: seq<Participant>, p: Participant): (r: seq<Participant>)
    requires DistinctIds(entries)
    ensures DistinctIds(r)
    ensures IdsOf(r) == IdsOf(entries) + {p.id}
    ensures p in r
    ensures forall q :: q in r ==> q == p || q in entries
  {
    if entries == [] then [p]
    else
      var e0, tail := entries[0], entries[1..];
      DistinctTail(entries);
      ConsIds(e0, tail);
      if e0.id == p.id then
        ConsIds(p, tail);
        ConsDistinct(p, tail);
        [p] + tail
      else
        var rest := Put(tail, p);
        ConsIds(e0, rest);
        ConsDistinct(e0, rest);
        [e0] + rest
  }

  lemma ConsIds(x: Participant, t: seq<Participant>)
    ensures IdsOf([x] + t) == {x.id} + IdsOf(t)
  {
    assert forall q :: q in [x] + t <==> q == x || q in t;
  }

  lemma ConsDistinct(x: Participant, t: seq<Participant>)
    requires DistinctIds(t)
    requires x.id !in IdsOf(t)
    ensures DistinctIds([x] + t)
  {
    var s := [x] + t;
    forall i, j | 0 <= i < j < |s|
      ensures s[i].id != s[j].id
    {
      assert s[j] == t[j - 1];
      if i == 0 {
        assert t[j - 1] in t;
      } else {
        assert s[i] == t[i - 1];
      }
    }
  }

  lemma DistinctTail(s: seq<Participant>)
    requires DistinctIds(s) && s != []
    ensures DistinctIds(s[1..])
    ensures s[0].id !in IdsOf(s[1..])
    ensures s == [s[0]] + s[1..]
  {
    var t := s[1..];
    forall i, j | 0 <= i < j < |t|
      ensures t[i].id != t[j].id
    {
      assert t[i] == s[i + 1] && t[j] == s[j + 1];
    }
    forall q | q in t
      ensures q.id != s[0].id
    {
      var k :| 0 <= k < |t| && t[k] == q;
      assert s[k + 1] == q;
    }
  }

  /** The `forEach` that keys every row by its id. */
  function KeyById(rows: seq<Participant>): (r: seq<Participant>)
    ensures DistinctIds(r)
    ensures IdsOf(r) == IdsOf(rows)
  {
    if rows == [] then []
    else
      var init := rows[..|rows| - 1];
      assert rows == init + [rows[|rows| - 1]];
      assert IdsOf(rows) == IdsOf(init) + {rows[|rows| - 1].id};
      Put(KeyById(init), rows[|rows| - 1])
  }

  /** The row that a repeated id ends up with: the last one carrying it. */
  function LastRow(rows: seq<Participant>, id: string): (p: Participant)
    requires id in IdsOf(rows)
    ensures p in rows && p.id == id
  {
    var last := rows[|rows| - 1];
    if last.id == id then last
    else
      var init := rows[..|rows| - 1];
      assert rows == init + [last];
      assert id in IdsOf(init);
      LastRow(init, id)
  }

  /** Keying by id keeps one entry per distinct id, and that entry is the
      last row with the id: the last row wins. */
  lemma {:induction false} KeyByIdLastWins(rows: seq<Participant>)
    ensures forall i :: 0 <= i < |KeyById(rows)| ==>
      KeyById(rows)[i].id in IdsOf(rows) && KeyById(rows)[i] == LastRow(rows, KeyById(rows)[i].id)
  {
    if rows != [] {
      var init := rows[..|rows| - 1];
      var last := rows[|rows| - 1];
      assert rows == init + [last];
      KeyByIdLastWins(init);
      var r := KeyById(rows);
      forall i | 0 <= i < |r|
        ensures r[i].id in IdsOf(rows) && r[i] == LastRow(rows, r[i].id)
      {
        assert r[i] in r;
        if r[i].id != last.id {
          assert r[i] in KeyById(init);
          var k :| 0 <= k < |KeyById(init)| && KeyById(init)[k] == r[i];
          assert r[i] == LastRow(init, r[i].id);
        } else {
          assert r[i] == last by {
            var ids := IdsOf(r);
            assert last in r;
            var k :| 0 <= k < |r| && r[k] == last;
            if k != i { assert r[k].id == r[i].id; }
          }
        }
      }
    }
  }

  /** The number of keys is the number of distinct ids among the rows. */
  lemma KeyByIdCount(rows: seq<Participant>)
    ensures |KeyById(rows)| == |IdsOf(rows)|
  {
    DistinctIdsCount(KeyById(rows));
  }

  lemma {:induction false} DistinctIdsCount(s: seq<Participant>)
    requires DistinctIds(s)
    ensures |IdsOf(s)| == |s|
  {
    if s != [] {
      var init := s[..|s| - 1];
      assert s == init + [s[|s| - 1]];
      assert IdsOf(s) == IdsOf(init) + {s[|s| - 1].id};
      DistinctIdsCount(init);
      forall k | 0 <= k < |init|
        ensures init[k].id != s[|s| - 1].id
      {
        assert init[k] == s[k];
      }
      assert s[|s| - 1].id !in IdsOf(init);
    }
  }

  /** The ids in the order an id-keyed object lists them: order of first
      appearance among the rows. */
  function KeyOrder(rows: seq<Participant>): seq<string> {
    if rows == [] then []
    else
      var init := rows[..|rows| - 1];
      var id := rows[|rows| - 1].id;
      if id in IdsOf(init) then KeyOrder(init) else KeyOrder(init) + [id]
  }

  function IdSeq(s: seq<Participant>): (r: seq<string>)
    ensures |r| == |s|
  {
    if s == [] then [] else [s[0].id] + IdSeq(s[1..])
  }

  lemma {:induction false} PutKeyOrder(entries: seq<Participant>, p: Participant)
    requires DistinctIds(entries)
    ensures IdSeq(Put(entries, p)) == if p.id in IdsOf(entries) then IdSeq(entries) else IdSeq(entries) + [p.id]
    decreases |entries|, 1
  {
    if entries == [] {
      assert Put(entries, p) == [p];
    } else if entries[0].id == p.id {
      PutKeyOrderReplace(entries, p);
    } else {
      PutKeyOrderSkip(entries, p);
    }
  }

  lemma PutKeyOrderReplace(entries: seq<Participant>, p: Participant)
    requires DistinctIds(entries)
    requires entries != [] && entries[0].id == p.id
    ensures IdSeq(Put(entries, p)) == IdSeq(entries)
    ensures p.id in IdsOf(entries)
  {
    var e0, tail := entries[0], entries[1..];
    assert entries == [e0] + tail;
    assert e0 in entries;
    assert Put(entries, p) == [p] + tail;
    IdSeqCons(e0, tail);
    IdSeqCons(p, tail);
  }

  lemma {:induction false} PutKeyOrderSkip(entries: seq<Participant>, p: Participant)
    requires DistinctIds(entries)
    requires entries != [] && entries[0].id != p.id
    ensures IdSeq(Put(entries, p)) == if p.id in IdsOf(entries) then IdSeq(entries) else IdSeq(entries) + [p.id]
    decreases |entries|, 0
  {
    var e0, tail := entries[0], entries[1..];
    assert entries == [e0] + tail;
    var rest := Put(tail, p);
    assert Put(entries, p) == [e0] + rest;
    PutKeyOrder(tail, p);
    IdSeqCons(e0, rest);
    IdSeqCons(e0, tail);
    assert IdsOf(entries) == {e0.id} + IdsOf(tail);
    AppendAssoc([e0.id], IdSeq(tail), [p.id]);
  }

  /** Concatenation regrouped, as one fact the caller can use without
      searching for it among the other sequence facts in scope. */
  lemma AppendAssoc<T>(a: seq<T>, b: seq<T>, c: seq<T>)
    ensures a + (b + c) == (a + b) + c
  {
  }

  lemma IdSeqCons(x: Participant, s: seq<Participant>)
    ensures IdSeq([x] + s) == [x.id] + IdSeq(s)
  {
    assert ([x] + s)[1..] == s;
  }

  /** Keying by id lists the ids in the order they first appear. */
  lemma {:induction false} KeyByIdOrder(rows: seq<Participant>)
    ensures IdSeq(KeyById(rows)) == KeyOrder(rows)
  {
    if rows != [] {
      KeyByIdOrder(rows[..|rows| - 1]);
      PutKeyOrder(KeyById(rows[..|rows| - 1]), rows[|rows| - 1]);
    }
  }

  /** Re-keying a list whose ids are already distinct changes nothing: the
      second `forEach` of the fetch keeps the sorted order. */
  lemma {:induction false} KeyByIdOfDistinct(s: seq<Participant>)
    requires DistinctIds(s)
    ensures KeyById(s) == s
  {
    if s != [] {
      var init := s[..|s| - 1];
      var last := s[|s| - 1];
      assert s == init + [last];
      KeyByIdOfDistinct(init);
      assert last.id !in IdsOf(init);
      PutAppendsNewId(init, last);
    }
  }

  lemma {:induction false} PutAppendsNewId(entries: seq<Participant>, p: Participant)
    requires DistinctIds(entries)
    requires p.id !in IdsOf(entries)
    ensures Put(entries, p) == entries + [p]
  {
    if entries != [] {
      assert entries[0] in entries;
      assert IdsOf(entries[1..]) <= IdsOf(entries);
      PutAppendsNewId(entries[1..], p);
      assert entries == [entries[0]] + entries[1..];
    }
  }

  // ---------------------------------------------------------------------
  // Ordering: `sort((a, b) => bLatest - aLatest)`

  /** The comparator's key: the time of the FIRST stored check-in, or 0 when
      the history is missing or empty. */
  function SortKey(p: Participant): int {
    match p.checkIns
    case Some(h) => if |h| > 0 then h[0] else 0
    case None => 0
  }

  /** A later check-in never moves a participant that already has one: the
      key only changes when the history was empty. */
  lemma SortKeyIgnoresLaterCheckIns(p: Participant, t: int)
    requires p.checkIns.Some?
    ensures SortKey(p.(checkIns := Some(p.checkIns.value + [t]))) ==
      if p.checkIns.value == [] then t else SortKey(p)
  {
  }

  /** Newest first: keys never increase along the list. */
  predicate NonIncreasing(s: seq<Participant>) {
    forall i, j :: 0 <= i < j < |s| ==> SortKey(s[i]) >= SortKey(s[j])
  }

  /** The participants of `s` whose key is `k`, in their order in `s`. */
  function WithKey(s: seq<Participant>, k: int): (r: seq<Participant>)
    ensures |r| <= |s|
  {
    if s == [] then []
    else (if SortKey(s[0]) == k then [s[0]] else []) + WithKey(s[1..], k)
  }

  /** Places `p` after every entry whose key is at least its own. */
  function Insert(sorted: seq<Participant>, p: Participant): (r: seq<Participant>)
    requires NonIncreasing(sorted)
    ensures NonIncreasing(r)
    ensures multiset(r) == multiset(sorted) + multiset{p}
    ensures r != [] && r[0] == if sorted != [] && SortKey(sorted[0]) >= SortKey(p) then sorted[0] else p
  {
    if sorted == [] then [p]
    else if SortKey(sorted[0]) >= SortKey(p) then
      var s0, tail := sorted[0], sorted[1..];
      assert sorted == [s0] + tail;
      var rest := Insert(tail, p);
      InsertBehind(s0, tail, rest, p);
      [s0] + rest
    else
      ConsNonIncreasing(p, sorted);
      [p] + sorted
  }

  /** The step of `Insert` that keeps the head in front. */
  lemma InsertBehind(s0: Participant, tail: seq<Participant>, rest: seq<Participant>, p: Participant)
    requires NonIncreasing([s0] + tail) && NonIncreasing(rest)
    requires SortKey(s0) >= SortKey(p)
    requires multiset(rest) == multiset(tail) + multiset{p}
    requires rest != [] && rest[0] == if tail != [] && SortKey(tail[0]) >= SortKey(p) then tail[0] else p
    ensures NonIncreasing([s0] + rest)
    ensures multiset([s0] + rest) == multiset([s0] + tail) + multiset{p}
  {
    if tail != [] {
      var s := [s0] + tail;
      assert s[0] == s0 && s[1] == tail[0];
      assert SortKey(s[0]) >= SortKey(s[1]);
    }
    ConsNonIncreasing(s0, rest);
  }

  lemma ConsNonIncreasing(x: Participant, t: seq<Participant>)
    requires NonIncreasing(t)
    requires t != [] ==> SortKey(x) >= SortKey(t[0])
    ensures NonIncreasing([x] + t)
  {
    var s := [x] + t;
    forall i, j | 0 <= i < j < |s|
      ensures SortKey(s[i]) >= SortKey(s[j])
    {
      assert s[j] == t[j - 1];
      if i > 0 {
        assert s[i] == t[i - 1];
      } else if j > 1 {
        assert SortKey(t[0]) >= SortKey(t[j - 1]);
      }
    }
  }

  /** The stable sort, descending by key: later rows are inserted after
      earlier rows with an equal key. */
  function SortByKey(s: seq<Participant>): (r: seq<Participant>)
    ensures NonIncreasing(r)
    ensures multiset(r) == multiset(s)
  {
    if s == [] then []
    else
      assert s == s[..|s| - 1] + [s[|s| - 1]];
      Insert(SortByKey(s[..|s| - 1]), s[|s| - 1])
  }

  lemma {:induction false} WithKeyAppend(s: seq<Participant>, t: seq<Participant>, k: int)
    ensures WithKey(s + t, k) == WithKey(s, k) + WithKey(t, k)
  {
    if s != [] {
      assert (s + t)[0] == s[0];
      assert (s + t)[1..] == s[1..] + t;
      WithKeyAppend(s[1..], t, k);
    } else {
      assert s + t == t;
    }
  }

  lemma {:induction false} WithKeyAbove(s: seq<Participant>, k: int)
    requires forall i :: 0 <= i < |s| ==> SortKey(s[i]) < k
    ensures WithKey(s, k) == []
  {
    if s != [] {
      WithKeyAbove(s[1..], k);
    }
  }

  lemma {:induction false} InsertStable(sorted: seq<Participant>, p: Participant, k: int)
    requires NonIncreasing(sorted)
    ensures WithKey(Insert(sorted, p), k) == WithKey(sorted, k) + WithKey([p], k)
    decreases |sorted|, 1
  {
    if sorted == [] {
      assert Insert(sorted, p) == [p] == [p] + [];
    } else if SortKey(sorted[0]) >= SortKey(p) {
      InsertStableBehind(sorted, p, k);
    } else {
      InsertStableInFront(sorted, p, k);
    }
  }

  lemma {:induction false} InsertStableBehind(sorted: seq<Participant>, p: Participant, k: int)
    requires NonIncreasing(sorted)
    requires sorted != [] && SortKey(sorted[0]) >= SortKey(p)
    ensures WithKey(Insert(sorted, p), k) == WithKey(sorted, k) + WithKey([p], k)
    decreases |sorted|, 0
  {
    var s0, tail := sorted[0], sorted[1..];
    assert Insert(sorted, p) == [s0] + Insert(tail, p);
    InsertStable(tail, p, k);
    WithKeyConsStep(s0, tail, Insert(tail, p), [p], k);
    assert sorted == [s0] + tail;
  }

  lemma InsertStableInFront(sorted: seq<Participant>, p: Participant, k: int)
    requires NonIncreasing(sorted)
    requires sorted != [] && SortKey(sorted[0]) < SortKey(p)
    ensures WithKey(Insert(sorted, p), k) == WithKey(sorted, k) + WithKey([p], k)
  {
    assert Insert(sorted, p) == [p] + sorted;
    if SortKey(p) == k {
      WithKeyAbove(sorted, k);
    }
    WithKeyFront(p, sorted, k);
  }

  /** Putting the same entry in front of both sides keeps a split by key. */
  lemma WithKeyConsStep(x: Participant, t: seq<Participant>, u: seq<Participant>, v: seq<Participant>, k: int)
    requires WithKey(u, k) == WithKey(t, k) + WithKey(v, k)
    ensures WithKey([x] + u, k) == WithKey([x] + t, k) + WithKey(v, k)
  {
    WithKeyCons(x, u, k);
    WithKeyCons(x, t, k);
  }

  lemma WithKeyFront(p: Participant, s: seq<Participant>, k: int)
    requires SortKey(p) == k ==> WithKey(s, k) == []
    ensures WithKey([p] + s, k) == WithKey(s, k) + WithKey([p], k)
  {
    WithKeyCons(p, s, k);
    WithKeyCons(p, [], k);
    assert [p] + [] == [p];
  }

  lemma WithKeyCons(x: Participant, s: seq<Participant>, k: int)
    ensures WithKey([x] + s, k) == (if SortKey(x) == k then [x] else []) + WithKey(s, k)
  {
    assert ([x] + s)[0] == x;
    assert ([x] + s)[1..] == s;
  }

  /** Stability: for every key, the participants carrying it appear in the
      sorted list in exactly their input order. In particular everyone with
      no check-in keeps their relative order. */
  lemma {:induction false} SortIsStable(s: seq<Participant>, k: int)
    ensures WithKey(SortByKey(s), k) == WithKey(s, k)
  {
    if s != [] {
      var init := s[..|s| - 1];
      var last := s[|s| - 1];
      SortIsStable(init, k);
      InsertStable(SortByKey(init), last, k);
      assert s == init + [last];
      WithKeyAppend(init, [last], k);
    }
  }

  /** Any two newest-first lists that agree on the order within every key
      are equal: a stable sort has exactly one possible result, so the
      engine's `Array.prototype.sort` yields `SortByKey`. */
  lemma {:induction false} StableSortIsUnique(a: seq<Participant>, b: seq<Participant>)
    requires NonIncreasing(a) && NonIncreasing(b)
    requires forall k :: WithKey(a, k) == WithKey(b, k)
    ensures a == b
  {
    if a == [] {
      if b != [] {
        WithKeyOfHead(b);
        assert false;
      }
    } else if b == [] {
      WithKeyOfHead(a);
      assert false;
    } else {
      var ka, kb := SortKey(a[0]), SortKey(b[0]);
      WithKeyNonEmpty(b, ka);
      WithKeyNonEmpty(a, kb);
      assert ka == kb;
      assert WithKey(a, ka)[0] == a[0];
      assert WithKey(b, kb)[0] == b[0];
      forall k
        ensures WithKey(a[1..], k) == WithKey(b[1..], k)
      {
        var head := if ka == k then [a[0]] else [];
        assert WithKey(a, k) == head + WithKey(a[1..], k);
        assert WithKey(b, k) == head + WithKey(b[1..], k);
        assert WithKey(a, k) == WithKey(b, k);
        assert (head + WithKey(a[1..], k))[|head|..] == WithKey(a[1..], k);
        assert (head + WithKey(b[1..], k))[|head|..] == WithKey(b[1..], k);
      }
      StableSortIsUnique(a[1..], b[1..]);
      assert a == [a[0]] + a[1..] && b == [b[0]] + b[1..];
    }
  }

  lemma WithKeyOfHead(s: seq<Participant>)
    requires s != []
    ensures WithKey(s, SortKey(s[0])) != []
  {
  }

  /** When the list is newest first, a key that occurs in it is at most the
      first key. */
  lemma {:induction false} WithKeyNonEmpty(s: seq<Participant>, k: int)
    requires NonIncreasing(s) && s != []
    requires WithKey(s, k) != []
    ensures k <= SortKey(s[0])
  {
    if SortKey(s[0]) != k {
      if k > SortKey(s[0]) {
        WithKeyAbove(s, k);
      }
    }
  }

  /** Sorting is a permutation, so it keeps the ids and their distinctness. */
  lemma SortKeepsIds(s: seq<Participant>)
    ensures forall p :: p in SortByKey(s) <==> p in s
    ensures IdsOf(SortByKey(s)) == IdsOf(s)
    ensures |SortByKey(s)| == |s|
    ensures DistinctIds(s) ==> DistinctIds(SortByKey(s))
  {
    var r := SortByKey(s);
    forall p
      ensures p in r <==> p in s
    {
      assert p in r <==> p in multiset(r);
      assert p in s <==> p in multiset(s);
    }
    assert IdsOf(r) == IdsOf(s);
    assert |r| == |multiset(r)| == |multiset(s)| == |s|;
    if DistinctIds(s) {
      DistinctIdsCount(s);
      DistinctByCount(r);
    }
  }

  /** A list with as many distinct ids as entries has no repeated id. */
  lemma {:induction false} DistinctByCount(s: seq<Participant>)
    requires |IdsOf(s)| == |s|
    ensures DistinctIds(s)
  {
    if s != [] {
      var init := s[..|s| - 1];
      var last := s[|s| - 1];
      assert s == init + [last];
      assert IdsOf(s) == IdsOf(init) + {last.id};
      IdsBound(init);
      DistinctByCount(init);
      assert last.id !in IdsOf(init);
      forall i, j | 0 <= i < j < |s| ensures s[i].id != s[j].id {
        if j == |s| - 1 {
          assert init[i] in init;
        } else {
          assert s[i] == init[i] && s[j] == init[j];
        }
      }
    }
  }

  lemma {:induction false} IdsBound(s: seq<Participant>)
    ensures |IdsOf(s)| <= |s|
  {
    if s != [] {
      var init := s[..|s| - 1];
      assert s == init + [s[|s| - 1]];
      assert IdsOf(s) == IdsOf(init) + {s[|s| - 1].id};
      IdsBound(init);
    }
  }

  // ---------------------------------------------------------------------
  // The fetch as a whole

  /** The list the console stores: rows keyed by id, sorted, and keyed by id
      again. */
  function ParticipantsView(rows: seq<Participant>): (r: seq<Participant>)
    ensures NonIncreasing(r)
    ensures DistinctIds(r)
    ensures IdsOf(r) == IdsOf(rows)
    ensures |r| == |IdsOf(rows)|
    ensures forall i :: 0 <= i < |r| ==> r[i].id in IdsOf(rows) && r[i] == LastRow(rows, r[i].id)
  {
    ViewIsSortedKeyed(rows);
    KeyById(SortByKey(KeyById(rows)))
  }

  /** Re-keying the sorted list returns it, and every entry of it is the last
      fetched row with its id. */
  lemma ViewIsSortedKeyed(rows: seq<Participant>)
    ensures KeyById(SortByKey(KeyById(rows))) == SortByKey(KeyById(rows))
    ensures DistinctIds(SortByKey(KeyById(rows)))
    ensures IdsOf(SortByKey(KeyById(rows))) == IdsOf(rows)
    ensures |SortByKey(KeyById(rows))| == |IdsOf(rows)|
    ensures forall i :: 0 <= i < |SortByKey(KeyById(rows))| ==>
      SortByKey(KeyById(rows))[i].id in IdsOf(rows) &&
      SortByKey(KeyById(rows))[i] == LastRow(rows, SortByKey(KeyById(rows))[i].id)
  {
    var keyed := KeyById(rows);
    var sorted := SortByKey(keyed);
    SortKeepsIds(keyed);
    KeyByIdOfDistinct(sorted);
    KeyByIdCount(rows);
    KeyByIdLastWins(rows);
    forall i | 0 <= i < |sorted|
      ensures sorted[i].id in IdsOf(rows) && sorted[i] == LastRow(rows, sorted[i].id)
    {
      assert sorted[i] in keyed;
      var j :| 0 <= j < |keyed| && keyed[j] == sorted[i];
    }
  }

  /** The rows keyed by id and then sorted keep their order for every key:
      the list shown is the keyed rows, newest first, with ties in the order
      the ids first appeared. */
  lemma ParticipantsViewStable(rows: seq<Participant>, k: int)
    ensures WithKey(ParticipantsView(rows), k) == WithKey(KeyById(rows), k)
  {
    SortKeepsIds(KeyById(rows));
    KeyByIdOfDistinct(SortByKey(KeyById(rows)));
    SortIsStable(KeyById(rows), k);
  }

  /** `ParticipantsViewStable` for every key at once. */
  lemma ViewKeepsTieOrder(rows: seq<Participant>)
    ensures forall k :: WithKey(ParticipantsView(rows), k) == WithKey(KeyById(rows), k)
  {
    forall k ensures WithKey(ParticipantsView(rows), k) == WithKey(KeyById(rows), k) {
      ParticipantsViewStable(rows, k);
    }
  }

  /** The list is a permutation of the keyed rows. */
  lemma ParticipantsViewPermutes(rows: seq<Participant>)
    ensures multiset(ParticipantsView(rows)) == multiset(KeyById(rows))
  {
    SortKeepsIds(KeyById(rows));
    KeyByIdOfDistinct(SortByKey(KeyById(rows)));
  }

  /** The key is the FIRST stored check-in, not the latest: a participant
      first seen at 1 and again at 5 is listed after one seen once at 3. */
  lemma SortsByFirstCheckIn(a: Participant, b: Participant)
    requires a.checkIns == Some([1, 5]) && b.checkIns == Some([3])
    ensures SortByKey([a, b]) == [b, a]
  {
    assert [a, b][..1] == [a];
    assert [a][..0] == [];
  }
}
