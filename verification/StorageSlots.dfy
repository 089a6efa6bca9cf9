/** Model of `addresses_attestation_pair_to_storage_slots` and of the slot list built in
    `_prepare_consensus_mpt_proof_inputs` (`rpcs/execution/http.rs`): events are deduplicated into a map from
    storage key to user, the provider answers for the keys of that map, and the answers are sorted by user. */
module StorageSlots {
  import opened Common
  import opened SlotLeaf
  import opened SlotProofs
  import Rlp

  type KeyHash = seq<Byte> -> seq<Byte>

  type SlotMap = map<seq<Byte>, Address>

  datatype TokensLocked = TokensLocked(user: Address, amount: nat)

  datatype SlotAnswer = SlotAnswer(key: seq<Byte>, value: Word, proof: seq<seq<Byte>>)

  datatype ProofResponse = ProofResponse(
    address: Address, account: Rlp.Account, accountProof: seq<seq<Byte>>, storageProof: seq<SlotAnswer>)

  datatype Prepared = Prepared(storage: ContractStorage) | MissingAddress(key: seq<Byte>)

  function Users(events: seq<TokensLocked>): (u: set<Address>)
    ensures forall a :: a in u <==> exists e | e in events :: e.user == a
  {
    set e | e in events :: e.user
  }

  /** Every key belongs to the user it is mapped to. */
  predicate Keyed(k: KeyHash, m: SlotMap) {
    forall key | key in m :: SlotKey(k, m[key]) == key
  }

  /** The keys of the events' users, each mapped to one of those users. */
  predicate MapOf(k: KeyHash, events: seq<TokensLocked>, m: SlotMap) {
    && m.Keys == (set u | u in Users(events) :: SlotKey(k, u))
    && Keyed(k, m) && m.Values <= Users(events)
  }

  method AddressesToStorageSlots(k: KeyHash, events: seq<TokensLocked>) returns (m: SlotMap)
    ensures MapOf(k, events, m)
  {
    m := map[];
    for i := 0 to |events|
      invariant m.Keys == set u | u in Users(events[..i]) :: SlotKey(k, u)
      invariant Keyed(k, m) && m.Values <= Users(events[..i])
    {
      var slot := GetStorageLocationForKey(k, events[i].user, SOURCE_CONTRACT_LOCKED_TOKENS_STORAGE_INDEX);
      UsersExtend(events, i);
      m := m[slot := events[i].user];
    }
    assert events[..|events|] == events;
  }

  lemma UsersExtend(events: seq<TokensLocked>, i: nat)
    requires i < |events|
    ensures Users(events[..i + 1]) == Users(events[..i]) + {events[i].user}
  {
    assert events[..i + 1] == events[..i] + [events[i]];
  }

  /** No two of the given users share a storage key. */
  ghost predicate KeysDistinct(k: KeyHash, users: set<Address>) {
    forall a, b | a in users && b in users && SlotKey(k, a) == SlotKey(k, b) :: a == b
  }

  /** Two users with one storage key are two byte strings with one hash. */
  lemma KeysDistinctUnless(k: KeyHash, users: set<Address>, a: Address, b: Address)
    requires a in users && b in users && a != b && SlotKey(k, a) == SlotKey(k, b)
    ensures
      var i := SOURCE_CONTRACT_LOCKED_TOKENS_STORAGE_INDEX;
      SlotPreimage(a, i) != SlotPreimage(b, i) && k(SlotPreimage(a, i)) == k(SlotPreimage(b, i))
  {
    if SlotPreimage(a, SOURCE_CONTRACT_LOCKED_TOKENS_STORAGE_INDEX)
        == SlotPreimage(b, SOURCE_CONTRACT_LOCKED_TOKENS_STORAGE_INDEX) {
      SlotPreimageUnique(a, b, SOURCE_CONTRACT_LOCKED_TOKENS_STORAGE_INDEX);
    }
  }

  /** Without such a collision the map is determined by the set of users: neither the order of the events nor
      repeated events matter, and no user is lost. */
  lemma MapIsDetermined(k: KeyHash, events: seq<TokensLocked>, m: SlotMap)
    requires KeysDistinct(k, Users(events)) && MapOf(k, events, m)
    ensures forall u | u in Users(events) :: SlotKey(k, u) in m && m[SlotKey(k, u)] == u
    ensures m.Values == Users(events)
    ensures forall n: SlotMap | MapOf(k, events, n) :: n == m
  {
    forall u | u in Users(events) ensures SlotKey(k, u) in m && m[SlotKey(k, u)] == u {
      assert m[SlotKey(k, u)] in m.Values;
    }
    forall n: SlotMap | MapOf(k, events, n) ensures n == m {
      forall key | key in m ensures n[key] == m[key] {
        assert n[key] in n.Values && m[key] in m.Values;
      }
    }
  }

  // ----- the sort

  predicate Ascending(s: seq<StorageSlot>) {
    forall i, j | 0 <= i < j < |s| :: s[i].slotKeyAddress <= s[j].slotKeyAddress
  }

  predicate StrictlyAscending(s: seq<StorageSlot>) {
    forall i, j | 0 <= i < j < |s| :: s[i].slotKeyAddress < s[j].slotKeyAddress
  }

  function Insert(s: seq<StorageSlot>, x: StorageSlot): (r: seq<StorageSlot>)
    ensures multiset(r) == multiset(s) + multiset{x}
  {
    if s == [] then [x]
    else if s[|s| - 1].slotKeyAddress <= x.slotKeyAddress then s + [x]
    else
      assert s == s[..|s| - 1] + [s[|s| - 1]];
      Insert(s[..|s| - 1], x) + [s[|s| - 1]]
  }

  lemma MemberOfInsert(s: seq<StorageSlot>, x: StorageSlot, i: nat)
    requires i < |Insert(s, x)|
    ensures Insert(s, x)[i] in s || Insert(s, x)[i] == x
  {
    assert Insert(s, x)[i] in multiset(Insert(s, x));
  }

  lemma {:induction false} InsertKeepsOrder(s: seq<StorageSlot>, x: StorageSlot)
    requires Ascending(s)
    ensures Ascending(Insert(s, x))
  {
    if s != [] && s[|s| - 1].slotKeyAddress > x.slotKeyAddress {
      var last, before := s[|s| - 1], s[..|s| - 1];
      InsertKeepsOrder(before, x);
      var r := Insert(before, x);
      forall i | 0 <= i < |r| ensures r[i].slotKeyAddress <= last.slotKeyAddress {
        MemberOfInsert(before, x, i);
      }
    }
  }

  /** A stable sort by user address. */
  function SortByAddress(s: seq<StorageSlot>): (r: seq<StorageSlot>)
    ensures multiset(r) == multiset(s) && Ascending(r)
  {
    if s == [] then []
    else
      assert s == s[..|s| - 1] + [s[|s| - 1]];
      InsertKeepsOrder(SortByAddress(s[..|s| - 1]), s[|s| - 1]);
      Insert(SortByAddress(s[..|s| - 1]), s[|s| - 1])
  }

  /** The slots of one user, in order. */
  function OfUser(s: seq<StorageSlot>, user: Address): seq<StorageSlot> {
    if s == [] then []
    else
      var last := s[|s| - 1];
      OfUser(s[..|s| - 1], user) + if last.slotKeyAddress == user then [last] else []
  }

  lemma OfUserSnoc(s: seq<StorageSlot>, x: StorageSlot, user: Address)
    ensures OfUser(s + [x], user) == OfUser(s, user) + if x.slotKeyAddress == user then [x] else []
  {
    assert (s + [x])[..|s|] == s;
  }

  lemma {:induction false} InsertIsStable(s: seq<StorageSlot>, x: StorageSlot, user: Address)
    ensures OfUser(Insert(s, x), user) == OfUser(s + [x], user)
  {
    hide OfUser;
    if s != [] && s[|s| - 1].slotKeyAddress > x.slotKeyAddress {
      var before, last := s[..|s| - 1], s[|s| - 1];
      InsertIsStable(before, x, user);
      OfUserSnoc(s, x, user);
      OfUserSnoc(before, last, user);
      OfUserSnoc(before, x, user);
      OfUserSnoc(Insert(before, x), last, user);
      assert s == before + [last];
      var own := OfUser(before, user);
      assert own + [] + [x] == own + [x] + [] && own + [last] + [] == own + [] + [last];
    } else {
      assert s == [] ==> [] + [x] == [x];
    }
  }

  /** The sort keeps the order of slots of the same user. */
  lemma {:induction false} SortIsStable(s: seq<StorageSlot>, user: Address)
    ensures OfUser(SortByAddress(s), user) == OfUser(s, user)
  {
    if s != [] {
      var before, x := s[..|s| - 1], s[|s| - 1];
      SortIsStable(before, user);
      InsertIsStable(SortByAddress(before), x, user);
      OfUserSnoc(SortByAddress(before), x, user);
    }
  }

  // ----- ascending sequences are determined by their members

  predicate Increasing<T>(rank: T -> nat, s: seq<T>) {
    forall i, j | 0 <= i < j < |s| :: rank(s[i]) < rank(s[j])
  }

  ghost predicate SameMembers<T(!new)>(s: seq<T>, t: seq<T>) {
    forall x :: x in s <==> x in t
  }

  lemma FirstMatches<T(!new)>(rank: T -> nat, s: seq<T>, t: seq<T>)
    requires Increasing(rank, s) && Increasing(rank, t) && SameMembers(s, t) && s != [] && t != []
    ensures s[0] == t[0] && SameMembers(s[1..], t[1..])
  {
    assert s[0] in t && t[0] in s;
    forall x ensures x in s[1..] <==> x in t[1..] {
      TailMembers(rank, s, x);
      TailMembers(rank, t, x);
    }
  }

  lemma TailMembers<T>(rank: T -> nat, s: seq<T>, x: T)
    requires Increasing(rank, s) && s != []
    ensures x in s[1..] <==> x in s && x != s[0]
  {
    assert s == [s[0]] + s[1..];
  }

  lemma HasMember<T(!new)>(s: seq<T>)
    ensures s == [] || exists x :: x in s
  {
    if s != [] { assert s[0] in s; }
  }

  lemma {:induction false} IncreasingUnique<T(!new)>(rank: T -> nat, s: seq<T>, t: seq<T>)
    requires Increasing(rank, s) && Increasing(rank, t) && SameMembers(s, t)
    ensures s == t
  {
    if s == [] {
      HasMember(t);
    } else {
      assert s[0] in t;
      FirstMatches(rank, s, t);
      hide SameMembers;
      assert s == [s[0]] + s[1..] && t == [t[0]] + t[1..];
      IncreasingUnique(rank, s[1..], t[1..]);
    }
  }

  // ----- the slot list

  function SlotOf(m: SlotMap, a: SlotAnswer): StorageSlot
    requires a.key in m
  {
    StorageSlot(a.key, m[a.key], a.value, a.proof)
  }

  predicate AllKnown(m: SlotMap, answers: seq<SlotAnswer>) {
    forall a | a in answers :: a.key in m
  }

  function SlotsOf(m: SlotMap, answers: seq<SlotAnswer>): (slots: seq<StorageSlot>)
    requires AllKnown(m, answers)
  {
    seq(|answers|, i requires 0 <= i < |answers| => SlotOf(m, answers[i]))
  }

  /** An answer for a key that was not asked for makes the program panic; otherwise the list holds one slot for
      each answer, sorted by user. */
  method PrepareContractStorage(m: SlotMap, response: ProofResponse) returns (r: Prepared)
    ensures r.Prepared? <==> AllKnown(m, response.storageProof)
    ensures r.MissingAddress? ==> r.key !in m && exists a | a in response.storageProof :: a.key == r.key
    ensures r.Prepared? ==>
              r.storage == ContractStorage(response.address, response.account, response.accountProof,
                                           SortByAddress(SlotsOf(m, response.storageProof)))
  {
    var answers := response.storageProof;
    var slots := [];
    for i := 0 to |answers|
      invariant AllKnown(m, answers[..i])
      invariant slots == SlotsOf(m, answers[..i])
    {
      if answers[i].key !in m {
        return MissingAddress(answers[i].key);
      }
      slots := slots + [SlotOf(m, answers[i])];
      assert answers[..i + 1] == answers[..i] + [answers[i]];
    }
    assert answers[..|answers|] == answers;
    r := Prepared(ContractStorage(response.address, response.account, response.accountProof, SortByAddress(slots)));
  }

  /** The answers carry distinct keys. */
  predicate DistinctKeys(answers: seq<SlotAnswer>) {
    forall i, j | 0 <= i < j < |answers| :: answers[i].key != answers[j].key
  }

  function Keys(answers: seq<SlotAnswer>): set<seq<Byte>> {
    set a | a in answers :: a.key
  }

  lemma {:induction false} SlotsMultiset(m: SlotMap, answers: seq<SlotAnswer>, s: StorageSlot)
    requires AllKnown(m, answers)
    ensures s in SlotsOf(m, answers) <==> exists a | a in answers :: SlotOf(m, a) == s
    ensures s in SortByAddress(SlotsOf(m, answers)) <==> exists a | a in answers :: SlotOf(m, a) == s
  {
    var slots := SlotsOf(m, answers);
    if s in slots {
      var i :| 0 <= i < |slots| && slots[i] == s;
      assert answers[i] in answers;
    }
    if a :| a in answers && SlotOf(m, a) == s {
      var i :| 0 <= i < |answers| && answers[i] == a;
      assert slots[i] == s;
    }
    assert s in SortByAddress(slots) <==> s in multiset(SortByAddress(slots));
    assert s in slots <==> s in multiset(slots);
  }

  /** Answers for distinct keys of a keyed map give each of their users once, in ascending order. */
  lemma EachUserOnce(k: KeyHash, m: SlotMap, answers: seq<SlotAnswer>)
    requires Keyed(k, m) && AllKnown(m, answers) && DistinctKeys(answers)
    ensures StrictlyAscending(SortByAddress(SlotsOf(m, answers)))
  {
    var r := SortByAddress(SlotsOf(m, answers));
    forall i, j | 0 <= i < j < |r| ensures r[i].slotKeyAddress != r[j].slotKeyAddress {
      if r[i].slotKeyAddress == r[j].slotKeyAddress {
        SameUserSameSlot(k, m, answers, r[i], r[j]);
        TwiceInSequence(r, i, j);
        SlotOccursOnce(m, answers, r[i]);
      }
    }
  }

  lemma SlotOccursOnce(m: SlotMap, answers: seq<SlotAnswer>, s: StorageSlot)
    requires AllKnown(m, answers) && DistinctKeys(answers)
    ensures multiset(SortByAddress(SlotsOf(m, answers)))[s] < 2
  {
    hide AllKnown;
    if multiset(SortByAddress(SlotsOf(m, answers)))[s] >= 2 {
      var p, q := TwoPlaces(SlotsOf(m, answers), s);
    }
  }

  lemma SameUserSameSlot(k: KeyHash, m: SlotMap, answers: seq<SlotAnswer>, s: StorageSlot, t: StorageSlot)
    requires Keyed(k, m) && AllKnown(m, answers) && DistinctKeys(answers)
    requires s in SortByAddress(SlotsOf(m, answers)) && t in SortByAddress(SlotsOf(m, answers))
    requires s.slotKeyAddress == t.slotKeyAddress
    ensures s == t
  {
    SlotsMultiset(m, answers, s);
    SlotsMultiset(m, answers, t);
    var a :| a in answers && SlotOf(m, a) == s;
    var b :| b in answers && SlotOf(m, b) == t;
    assert a.key == SlotKey(k, s.slotKeyAddress) == b.key;
    var i :| 0 <= i < |answers| && answers[i] == a;
    var j :| 0 <= j < |answers| && answers[j] == b;
    assert i == j;
  }

  lemma TwiceInSequence<T>(s: seq<T>, i: int, j: int)
    requires 0 <= i < j < |s| && s[i] == s[j]
    ensures multiset(s)[s[i]] >= 2
  {
    assert s == s[..i] + [s[i]] + s[i + 1..j] + [s[j]] + s[j + 1..];
  }

  lemma {:induction false} TwoPlaces<T>(s: seq<T>, x: T) returns (i: int, j: int)
    requires multiset(s)[x] >= 2
    ensures 0 <= i < j < |s| && s[i] == s[j] == x
  {
    j := |s| - 1;
    assert s == s[..j] + [s[j]];
    if s[j] == x {
      assert x in multiset(s[..j]);
      i :| 0 <= i < j && s[i] == x;
    } else {
      i, j := TwoPlaces(s[..j], x);
    }
  }

  lemma DistinctKeysPermute(a: seq<SlotAnswer>, b: seq<SlotAnswer>)
    requires DistinctKeys(a) && multiset(a) == multiset(b)
    ensures DistinctKeys(b)
  {
    forall i, j | 0 <= i < j < |b| ensures b[i].key != b[j].key {
      assert b[i] in multiset(b) && b[j] in multiset(b);
      var p :| 0 <= p < |a| && a[p] == b[i];
      var q :| 0 <= q < |a| && a[q] == b[j];
      if b[i].key == b[j].key {
        assert p == q;
        TwiceInSequence(b, i, j);
        p, q := TwoPlaces(a, b[i]);
      }
    }
  }

  /** The slot list does not depend on the order in which the provider answers, and so not on the order of
      the map either: answers that are permutations of each other give the same list. */
  lemma OrderIsIrrelevant(k: KeyHash, m: SlotMap, a: seq<SlotAnswer>, b: seq<SlotAnswer>)
    requires Keyed(k, m) && AllKnown(m, a) && DistinctKeys(a)
    requires multiset(a) == multiset(b)
    ensures AllKnown(m, b)
    ensures SortByAddress(SlotsOf(m, a)) == SortByAddress(SlotsOf(m, b))
  {
    forall x ensures x in a <==> x in b {
      assert x in a <==> x in multiset(a);
      assert x in b <==> x in multiset(b);
    }
    DistinctKeysPermute(a, b);
    EachUserOnce(k, m, a);
    EachUserOnce(k, m, b);
    var sa, sb := SortByAddress(SlotsOf(m, a)), SortByAddress(SlotsOf(m, b));
    forall s ensures s in sa <==> s in sb {
      SlotsMultiset(m, a, s);
      SlotsMultiset(m, b, s);
    }
    IncreasingUnique((s: StorageSlot) => s.slotKeyAddress, sa, sb);
  }

  /** Answers for exactly the requested keys, each once, give exactly the mapped users, each once. */
  lemma UsersAreExact(k: KeyHash, m: SlotMap, answers: seq<SlotAnswer>)
    requires Keyed(k, m) && DistinctKeys(answers) && Keys(answers) == m.Keys
    ensures AllKnown(m, answers)
    ensures
      var slots := SortByAddress(SlotsOf(m, answers));
      && StrictlyAscending(slots)
      && (forall u :: u in m.Values <==> exists s | s in slots :: s.slotKeyAddress == u)
      && forall s | s in slots :: s.key == SlotKey(k, s.slotKeyAddress)
  {
    forall a | a in answers ensures a.key in m {
      assert a.key in Keys(answers);
    }
    EachUserOnce(k, m, answers);
    var slots := SortByAddress(SlotsOf(m, answers));
    forall s | s in slots ensures s.key == SlotKey(k, s.slotKeyAddress) && s.slotKeyAddress in m.Values {
      SlotsMultiset(m, answers, s);
      var a :| a in answers && SlotOf(m, a) == s;
      assert a.key in m;
    }
    forall u | u in m.Values ensures exists s | s in slots :: s.slotKeyAddress == u {
      var key :| key in m && m[key] == u;
      assert key in Keys(answers);
      var a :| a in answers && a.key == key;
      SlotsMultiset(m, answers, SlotOf(m, a));
      assert SlotOf(m, a).slotKeyAddress == u;
    }
  }
}
