/** The journaled state: every write leaves its inverse behind, and checkpoints mark places in that record. */
module Journal {
  import opened Primitives

  type Address = nat

  type Word = nat

  datatype Account = Account(nonce: nat, balance: Word, codeHash: Hash, storageRoot: Hash)

  const EMPTY_ACCOUNT := Account(0, 0, ZERO_HASH, ZERO_HASH)

  type Accounts = map<Address, Account>

  type Storage = map<Address, map<Word, Word>>

  /** The two maps that the journal protects. */
  datatype Snapshot = Snapshot(accounts: Accounts, storage: Storage)

  function AccountOf(s: Snapshot, a: Address): Account {
    if a in s.accounts then s.accounts[a] else EMPTY_ACCOUNT
  }

  function SlotOf(s: Snapshot, a: Address, k: Word): Word {
    if a in s.storage && k in s.storage[a] then s.storage[a][k] else 0
  }

  /** No reader of accounts or storage can tell the two apart. */
  ghost predicate SameAnswers(s: Snapshot, t: Snapshot) {
    && (forall a :: AccountOf(s, a) == AccountOf(t, a))
    && (forall a, k :: SlotOf(s, a, k) == SlotOf(t, a, k))
  }

  function WithAccount(s: Snapshot, a: Address, account: Account): Snapshot {
    s.(accounts := s.accounts[a := account])
  }

  function WithSlot(s: Snapshot, a: Address, k: Word, v: Word): Snapshot {
    s.(storage := s.storage[a := (if a in s.storage then s.storage[a] else map[])[k := v]])
  }

  function Without(s: Snapshot, a: Address): Snapshot {
    Snapshot(s.accounts - {a}, s.storage - {a})
  }

  datatype JournalEntry =
    | AccountCreated(address: Address)
    | AccountDestroyed(address: Address, account: Account)
    | BalanceChanged(address: Address, prevBalance: Word)
    | NonceChanged(address: Address, prevNonce: nat)
    | CodeSet(address: Address, prevCodeHash: Hash)
    | StorageChanged(address: Address, key: Word, prevValue: Word)

  /** What undoing one entry does. */
  function Undo(s: Snapshot, e: JournalEntry): Snapshot {
    match e
    case AccountCreated(a) => Without(s, a)
    case AccountDestroyed(a, account) => WithAccount(s, a, account)
    case BalanceChanged(a, b) => WithAccount(s, a, AccountOf(s, a).(balance := b))
    case NonceChanged(a, n) => WithAccount(s, a, AccountOf(s, a).(nonce := n))
    case CodeSet(a, h) => WithAccount(s, a, AccountOf(s, a).(codeHash := h))
    case StorageChanged(a, k, v) => WithSlot(s, a, k, v)
  }

  /** Undoing the entries of a journal, the last one first. */
  function UndoAll(s: Snapshot, journal: seq<JournalEntry>): Snapshot
    decreases |journal|
  {
    if journal == [] then s else UndoAll(Undo(s, journal[|journal| - 1]), journal[..|journal| - 1])
  }

  lemma WithSlotReads(s: Snapshot, a: Address, k: Word, v: Word, a': Address, k': Word)
    ensures SlotOf(WithSlot(s, a, k, v), a', k') == if a' == a && k' == k then v else SlotOf(s, a', k')
  {
  }

  /** Undoing respects indistinguishability. */
  lemma UndoSame(s: Snapshot, t: Snapshot, e: JournalEntry)
    requires SameAnswers(s, t)
    ensures SameAnswers(Undo(s, e), Undo(t, e))
  {
    var s', t' := Undo(s, e), Undo(t, e);
    forall a ensures AccountOf(s', a) == AccountOf(t', a) {
      assert AccountOf(s, a) == AccountOf(t, a) && AccountOf(s, e.address) == AccountOf(t, e.address);
    }
    forall a, k ensures SlotOf(s', a, k) == SlotOf(t', a, k) {
      assert SlotOf(s, a, k) == SlotOf(t, a, k);
      if e.StorageChanged? {
        WithSlotReads(s, e.address, e.key, e.prevValue, a, k);
        WithSlotReads(t, e.address, e.key, e.prevValue, a, k);
      }
    }
  }

  lemma {:induction false} UndoAllSame(s: Snapshot, t: Snapshot, journal: seq<JournalEntry>)
    requires SameAnswers(s, t)
    ensures SameAnswers(UndoAll(s, journal), UndoAll(t, journal))
    decreases |journal|
  {
    if journal != [] {
      var n := |journal| - 1;
      UndoSame(s, t, journal[n]);
      UndoAllSame(Undo(s, journal[n]), Undo(t, journal[n]), journal[..n]);
    }
  }

  /** Undoing a journal is undoing its later part and then its earlier part. */
  lemma {:induction false} UndoAllSplit(s: Snapshot, early: seq<JournalEntry>, late: seq<JournalEntry>)
    ensures UndoAll(s, early + late) == UndoAll(UndoAll(s, late), early)
    decreases |late|
  {
    if late == [] {
      assert early + late == early;
    } else {
      var n := |late| - 1;
      assert (early + late)[..|early + late| - 1] == early + late[..n];
      UndoAllSplit(Undo(s, late[n]), early, late[..n]);
    }
  }

  /** An entry that was recorded for a write undoes that write. */
  lemma UndoBalance(s: Snapshot, a: Address, balance: Word)
    ensures var written := WithAccount(s, a, AccountOf(s, a).(balance := balance));
      SameAnswers(Undo(written, BalanceChanged(a, AccountOf(s, a).balance)), s)
  {
  }

  lemma UndoSlot(s: Snapshot, a: Address, k: Word, v: Word)
    ensures SameAnswers(Undo(WithSlot(s, a, k, v), StorageChanged(a, k, SlotOf(s, a, k))), s)
  {
    var t := WithSlot(s, a, k, v);
    forall a', k' ensures SlotOf(WithSlot(t, a, k, SlotOf(s, a, k)), a', k') == SlotOf(s, a', k') {
      WithSlotReads(t, a, k, SlotOf(s, a, k), a', k');
      WithSlotReads(s, a, k, v, a', k');
    }
  }

  /** The entries for a nonce and for code undo such a write, and that for a new account takes it away. */
  lemma UndoOthers(s: Snapshot, a: Address, nonce: nat, codeHash: Hash, account: Account)
    ensures var written := WithAccount(s, a, AccountOf(s, a).(nonce := nonce));
      SameAnswers(Undo(written, NonceChanged(a, AccountOf(s, a).nonce)), s)
    ensures var written := WithAccount(s, a, AccountOf(s, a).(codeHash := codeHash));
      SameAnswers(Undo(written, CodeSet(a, AccountOf(s, a).codeHash)), s)
    ensures a !in s.accounts && a !in s.storage ==> Undo(WithAccount(s, a, account), AccountCreated(a)) == s
  {
    if a !in s.accounts && a !in s.storage {
      var t := Undo(WithAccount(s, a, account), AccountCreated(a));
      assert t.accounts == s.accounts && t.storage == s.storage;
    }
  }

  /** The entry for a deleted account brings the account back, and its storage if and only if that was all zero. */
  lemma UndoDestroyedIff(s: Snapshot, a: Address)
    requires a in s.accounts
    ensures var t := Undo(Without(s, a), AccountDestroyed(a, s.accounts[a]));
      t.accounts == s.accounts && (SameAnswers(t, s) <==> forall k :: SlotOf(s, a, k) == 0)
  {
    var t := Undo(Without(s, a), AccountDestroyed(a, s.accounts[a]));
    assert t.accounts == s.accounts;
    assert forall k :: SlotOf(t, a, k) == 0;
    assert forall b, k :: b != a ==> SlotOf(t, b, k) == SlotOf(s, b, k);
  }

  /** The underlying database, shared by reference. */
  class StateDb {
    var accounts: Accounts
    var storage: Storage

    constructor ()
      ensures accounts == map[] && storage == map[]
      ensures forall a :: GetBalance(a) == 0
      ensures forall a, k :: GetStorage(a, k) == 0
    {
      accounts, storage := map[], map[];
    }

    function State(): Snapshot
      reads this
    {
      Snapshot(accounts, storage)
    }

    function GetBalance(a: Address): Word
      reads this
    {
      AccountOf(State(), a).balance
    }

    function GetStorage(a: Address, k: Word): Word
      reads this
    {
      SlotOf(State(), a, k)
    }

    method SetAccount(a: Address, account: Account)
      modifies this
      ensures State() == WithAccount(old(State()), a, account)
    {
      accounts := accounts[a := account];
    }

    method SetBalance(a: Address, balance: Word)
      modifies this
      ensures State() == WithAccount(old(State()), a, AccountOf(old(State()), a).(balance := balance))
      ensures forall b :: GetBalance(b) == if b == a then balance else old(GetBalance(b))
      ensures forall b, k :: GetStorage(b, k) == old(GetStorage(b, k))
    {
      SetAccount(a, AccountOf(State(), a).(balance := balance));
    }

    method SetStorage(a: Address, k: Word, v: Word)
      modifies this
      ensures State() == WithSlot(old(State()), a, k, v)
      ensures forall b, l :: GetStorage(b, l) == if b == a && l == k then v else old(GetStorage(b, l))
      ensures forall b :: GetBalance(b) == old(GetBalance(b))
    {
      storage := storage[a := (if a in storage then storage[a] else map[])[k := v]];
    }

    method DeleteAccount(a: Address)
      modifies this
      ensures State() == Without(old(State()), a)
      ensures forall b :: GetBalance(b) == if b == a then 0 else old(GetBalance(b))
      ensures forall b, k :: GetStorage(b, k) == if b == a then 0 else old(GetStorage(b, k))
    {
      accounts, storage := accounts - {a}, storage - {a};
    }
  }

  /** For each open checkpoint: undoing what the journal has gathered since leads back to its snapshot. */
  ghost predicate CheckpointsOk(s: Snapshot, journal: seq<JournalEntry>, checkpoints: seq<nat>, taken: seq<Snapshot>) {
    && |checkpoints| == |taken|
    && (forall i :: 0 <= i < |checkpoints| ==> checkpoints[i] <= |journal|)
    && (forall i, j :: 0 <= i < j < |checkpoints| ==> checkpoints[i] <= checkpoints[j])
    && (forall i :: 0 <= i < |checkpoints| ==> SameAnswers(UndoAll(s, journal[checkpoints[i]..]), taken[i]))
  }

  /** A recorded write keeps every checkpoint. */
  lemma WriteKeeps(s: Snapshot, s': Snapshot, journal: seq<JournalEntry>, e: JournalEntry, checkpoints: seq<nat>,
      taken: seq<Snapshot>)
    requires CheckpointsOk(s, journal, checkpoints, taken) && SameAnswers(Undo(s', e), s)
    ensures CheckpointsOk(s', journal + [e], checkpoints, taken)
  {
    forall i | 0 <= i < |checkpoints| ensures SameAnswers(UndoAll(s', (journal + [e])[checkpoints[i]..]), taken[i]) {
      var late := journal[checkpoints[i]..];
      assert (journal + [e])[checkpoints[i]..] == late + [e];
      assert (late + [e])[..|late|] == late;
      UndoAllSame(Undo(s', e), s, late);
    }
  }

  /** After a revert, the checkpoints below are as they were. */
  lemma RevertKeeps(s: Snapshot, journal: seq<JournalEntry>, checkpoints: seq<nat>, taken: seq<Snapshot>, id: nat)
    requires CheckpointsOk(s, journal, checkpoints, taken) && id < |checkpoints|
    ensures var n := checkpoints[id];
      CheckpointsOk(UndoAll(s, journal[n..]), journal[..n], checkpoints[..id], taken[..id])
  {
    var n := checkpoints[id];
    forall i | 0 <= i < id
      ensures SameAnswers(UndoAll(UndoAll(s, journal[n..]), journal[..n][checkpoints[i]..]), taken[i])
    {
      var early := journal[checkpoints[i]..n];
      assert journal[checkpoints[i]..] == early + journal[n..] && journal[..n][checkpoints[i]..] == early;
      UndoAllSplit(s, early, journal[n..]);
    }
  }

  // ---------------------------------------------------------------- which accounts exist

  /** The entries that writes leave: of balances and of storage. */
  ghost predicate Recorded(journal: seq<JournalEntry>) {
    forall e :: e in journal ==> e.BalanceChanged? || e.StorageChanged?
  }

  /** The accounts whose balance is in the journal. */
  ghost function Balances(journal: seq<JournalEntry>): set<Address> {
    set e | e in journal && e.BalanceChanged? :: e.address
  }

  ghost function Slots(journal: seq<JournalEntry>): set<(Address, Word)> {
    set e | e in journal && e.StorageChanged? :: (e.address, e.key)
  }

  lemma LastEntry(journal: seq<JournalEntry>)
    requires journal != [] && Recorded(journal)
    ensures var front, e := journal[..|journal| - 1], journal[|journal| - 1];
      && Recorded(front) && (e.BalanceChanged? || e.StorageChanged?)
      && Balances(journal) == Balances(front) + (if e.BalanceChanged? then {e.address} else {})
      && Slots(journal) == Slots(front) + (if e.StorageChanged? then {(e.address, e.key)} else {})
  {
    var front, e := journal[..|journal| - 1], journal[|journal| - 1];
    assert journal == front + [e];
  }

  /** Undoing never removes an account; it brings back those whose balance is in the journal. */
  lemma {:induction false} UndoAllAccounts(s: Snapshot, journal: seq<JournalEntry>)
    requires Recorded(journal)
    ensures UndoAll(s, journal).accounts.Keys == s.accounts.Keys + Balances(journal)
    decreases |journal|
  {
    if journal != [] {
      LastEntry(journal);
      UndoAllAccounts(Undo(s, journal[|journal| - 1]), journal[..|journal| - 1]);
    }
  }

  /**
   * The accounts that exist are those that existed at a checkpoint and those whose balance was written since,
   * be that write undone or not.
   */
  ghost predicate ExistenceOk(s: Snapshot, journal: seq<JournalEntry>, taken: seq<Snapshot>,
      written: seq<set<Address>>)
  {
    && Recorded(journal) && Balances(journal) <= s.accounts.Keys && |written| == |taken|
    && forall i :: 0 <= i < |taken| ==> s.accounts.Keys == taken[i].accounts.Keys + written[i]
  }

  function AlsoWritten(written: seq<set<Address>>, a: Address): (r: seq<set<Address>>)
    ensures |r| == |written| && forall i :: 0 <= i < |r| ==> r[i] == written[i] + {a}
  {
    seq(|written|, i requires 0 <= i < |written| => written[i] + {a})
  }

  lemma BalanceExists(s: Snapshot, journal: seq<JournalEntry>, taken: seq<Snapshot>, written: seq<set<Address>>,
      a: Address, balance: Word)
    requires ExistenceOk(s, journal, taken, written)
    ensures ExistenceOk(WithAccount(s, a, AccountOf(s, a).(balance := balance)),
                        journal + [BalanceChanged(a, AccountOf(s, a).balance)], taken, AlsoWritten(written, a))
  {
    var e := BalanceChanged(a, AccountOf(s, a).balance);
    OneMoreEntry(journal, e);
  }

  lemma SlotExists(s: Snapshot, journal: seq<JournalEntry>, taken: seq<Snapshot>, written: seq<set<Address>>,
      a: Address, k: Word, v: Word)
    requires ExistenceOk(s, journal, taken, written)
    ensures ExistenceOk(WithSlot(s, a, k, v), journal + [StorageChanged(a, k, SlotOf(s, a, k))], taken, written)
  {
    OneMoreEntry(journal, StorageChanged(a, k, SlotOf(s, a, k)));
  }

  lemma OneMoreEntry(journal: seq<JournalEntry>, e: JournalEntry)
    requires Recorded(journal) && (e.BalanceChanged? || e.StorageChanged?)
    ensures Recorded(journal + [e])
    ensures Balances(journal + [e]) == Balances(journal) + (if e.BalanceChanged? then {e.address} else {})
  {
    assert (journal + [e])[..|journal|] == journal;
    LastEntry(journal + [e]);
  }

  /** A revert changes nothing about which accounts exist. */
  lemma RevertExists(s: Snapshot, journal: seq<JournalEntry>, taken: seq<Snapshot>, written: seq<set<Address>>,
      n: nat, id: nat)
    requires ExistenceOk(s, journal, taken, written) && n <= |journal| && id <= |taken|
    ensures UndoAll(s, journal[n..]).accounts.Keys == s.accounts.Keys
    ensures ExistenceOk(UndoAll(s, journal[n..]), journal[..n], taken[..id], written[..id])
  {
    var early, late := journal[..n], journal[n..];
    assert forall e :: e in early || e in late ==> e in journal;
    assert Recorded(early) && Recorded(late);
    assert Balances(early) <= Balances(journal) && Balances(late) <= Balances(journal);
    UndoAllAccounts(s, late);
  }

  lemma SameAccounts(s: Snapshot, t: Snapshot, written: set<Address>)
    requires SameAnswers(s, t) && s.accounts.Keys == t.accounts.Keys + written
    ensures s.accounts == t.accounts <==> written <= t.accounts.Keys
  {
    if written <= t.accounts.Keys {
      forall a | a in t.accounts ensures s.accounts[a] == t.accounts[a] {
        assert AccountOf(s, a) == AccountOf(t, a);
      }
    }
  }

  // ---------------------------------------------------------------- discarding entries

  /** The two accounts differ in their balances at most. */
  ghost predicate SameButBalance(s: Snapshot, t: Snapshot, a: Address) {
    AccountOf(s, a) == AccountOf(t, a).(balance := AccountOf(s, a).balance)
  }

  lemma {:induction false} UndoAllButBalance(s: Snapshot, journal: seq<JournalEntry>, a: Address)
    requires Recorded(journal)
    ensures SameButBalance(UndoAll(s, journal), s, a)
    decreases |journal|
  {
    if journal != [] {
      LastEntry(journal);
      UndoAllButBalance(Undo(s, journal[|journal| - 1]), journal[..|journal| - 1], a);
    }
  }

  /** Undoing one journal in two states: an account ends alike exactly if it began so or is in the journal. */
  lemma {:induction false} UndoAllAccountIff(s: Snapshot, t: Snapshot, journal: seq<JournalEntry>, a: Address)
    requires Recorded(journal) && SameButBalance(s, t, a)
    ensures AccountOf(UndoAll(s, journal), a) == AccountOf(UndoAll(t, journal), a) <==>
      AccountOf(s, a) == AccountOf(t, a) || a in Balances(journal)
    decreases |journal|
  {
    if journal != [] {
      var n := |journal| - 1;
      LastEntry(journal);
      UndoAllAccountIff(Undo(s, journal[n]), Undo(t, journal[n]), journal[..n], a);
    }
  }

  lemma {:induction false} UndoAllSlotIff(s: Snapshot, t: Snapshot, journal: seq<JournalEntry>, a: Address, k: Word)
    requires Recorded(journal)
    ensures SlotOf(UndoAll(s, journal), a, k) == SlotOf(UndoAll(t, journal), a, k) <==>
      SlotOf(s, a, k) == SlotOf(t, a, k) || (a, k) in Slots(journal)
    decreases |journal|
  {
    if journal != [] {
      var n := |journal| - 1;
      var e := journal[n];
      LastEntry(journal);
      if e.StorageChanged? {
        WithSlotReads(s, e.address, e.key, e.prevValue, a, k);
        WithSlotReads(t, e.address, e.key, e.prevValue, a, k);
      }
      hide Slots, SlotOf;
      UndoAllSlotIff(Undo(s, e), Undo(t, e), journal[..n], a, k);
    }
  }

  /** Whatever answers differ between the two states, the journal has an entry for them. */
  ghost predicate Covers(s: Snapshot, t: Snapshot, journal: seq<JournalEntry>) {
    && (forall a: Address :: AccountOf(s, a) == AccountOf(t, a) || a in Balances(journal))
    && (forall a: Address, k: Word :: SlotOf(s, a, k) == SlotOf(t, a, k) || (a, k) in Slots(journal))
  }

  lemma UndoAllSameIff(s: Snapshot, t: Snapshot, journal: seq<JournalEntry>)
    requires Recorded(journal) && forall a :: SameButBalance(s, t, a)
    ensures SameAnswers(UndoAll(s, journal), UndoAll(t, journal)) <==> Covers(s, t, journal)
  {
    hide UndoAll, AccountOf, SlotOf, Balances, Slots, SameButBalance;
    forall a ensures AccountOf(UndoAll(s, journal), a) == AccountOf(UndoAll(t, journal), a) <==>
      AccountOf(s, a) == AccountOf(t, a) || a in Balances(journal)
    {
      UndoAllAccountIff(s, t, journal, a);
    }
    forall a: Address, k: Word ensures SlotOf(UndoAll(s, journal), a, k) == SlotOf(UndoAll(t, journal), a, k) <==>
      SlotOf(s, a, k) == SlotOf(t, a, k) || (a, k) in Slots(journal)
    {
      UndoAllSlotIff(s, t, journal, a, k);
    }
  }

  /**
   * Were the entries since a checkpoint discarded when it is committed, the checkpoints below would stay
   * restorable exactly if whatever has changed since it was taken had been written below it already.
   */
  lemma DiscardKeepsIff(s: Snapshot, journal: seq<JournalEntry>, checkpoints: seq<nat>, taken: seq<Snapshot>, id: nat)
    requires CheckpointsOk(s, journal, checkpoints, taken) && Recorded(journal) && id < |checkpoints|
    ensures var n := checkpoints[id];
      CheckpointsOk(s, journal[..n], checkpoints[..id], taken[..id]) <==>
        forall i :: 0 <= i < id ==> Covers(s, taken[id], journal[checkpoints[i]..n])
  {
    hide SameAnswers, Covers, UndoAll;
    var n := checkpoints[id];
    forall i | 0 <= i < id
      ensures SameAnswers(UndoAll(s, journal[..n][checkpoints[i]..]), taken[i]) <==>
        Covers(s, taken[id], journal[checkpoints[i]..n])
    {
      assert journal[..n][checkpoints[i]..] == journal[checkpoints[i]..n];
      assert journal[checkpoints[i]..] == journal[checkpoints[i]..n] + journal[n..];
      DiscardOne(s, journal[checkpoints[i]..n], journal[n..], taken[i], taken[id]);
    }
  }

  lemma DiscardOne(s: Snapshot, early: seq<JournalEntry>, late: seq<JournalEntry>, outer: Snapshot, inner: Snapshot)
    requires Recorded(early) && Recorded(late)
    requires SameAnswers(UndoAll(s, early + late), outer) && SameAnswers(UndoAll(s, late), inner)
    ensures SameAnswers(UndoAll(s, early), outer) <==> Covers(s, inner, early)
  {
    hide UndoAll, SameButBalance, Recorded, SameAnswers, Covers;
    var m := UndoAll(s, late);
    UndoAllSplit(s, early, late);
    forall a ensures SameButBalance(s, m, a) {
      UndoAllButBalance(s, late, a);
      ButBalanceSymmetric(m, s, a);
    }
    UndoAllSameIff(s, m, early);
    SameEither(UndoAll(s, early), UndoAll(m, early), outer);
    CoversEither(s, m, inner, early);
  }

  lemma SameEither(s: Snapshot, t: Snapshot, u: Snapshot)
    requires SameAnswers(t, u)
    ensures SameAnswers(s, t) <==> SameAnswers(s, u)
  {
    hide AccountOf, SlotOf;
    assert forall a :: AccountOf(t, a) == AccountOf(u, a);
    assert forall a, k :: SlotOf(t, a, k) == SlotOf(u, a, k);
  }

  lemma CoversEither(s: Snapshot, t: Snapshot, u: Snapshot, journal: seq<JournalEntry>)
    requires SameAnswers(t, u)
    ensures Covers(s, t, journal) <==> Covers(s, u, journal)
  {
    hide AccountOf, SlotOf, Balances, Slots;
    assert forall a :: AccountOf(t, a) == AccountOf(u, a);
    assert forall a, k :: SlotOf(t, a, k) == SlotOf(u, a, k);
  }

  lemma ButBalanceSymmetric(s: Snapshot, t: Snapshot, a: Address)
    requires SameButBalance(s, t, a)
    ensures SameButBalance(t, s, a)
  {
  }

  /** Two checkpoints and a write: without its entry, the outer one cannot be restored. */
  lemma DiscardBreaksOuter(s: Snapshot, a: Address, balance: Word)
    requires balance != AccountOf(s, a).balance
    ensures var s' := WithAccount(s, a, AccountOf(s, a).(balance := balance));
      var e := BalanceChanged(a, AccountOf(s, a).balance);
      CheckpointsOk(s', [e], [0, 0], [s, s]) && !CheckpointsOk(s', [], [0], [s])
  {
    var s' := WithAccount(s, a, AccountOf(s, a).(balance := balance));
    var e := BalanceChanged(a, AccountOf(s, a).balance);
    UndoBalance(s, a, balance);
    var one, none: seq<JournalEntry> := [e], [];
    assert one[0..] == one && one[..0] == none && none[0..] == none;
    assert UndoAll(s', none) == s' && UndoAll(s', one) == UndoAll(Undo(s', e), none) == Undo(s', e);
    assert AccountOf(s', a) != AccountOf(s, a) && !SameAnswers(s', s);
    hide UndoAll, SameAnswers;
    var two: seq<nat>, outer: seq<nat>, both := [0, 0], [0], [s, s];
    assert forall i :: 0 <= i < 2 ==> two[i] == 0 && both[i] == s;
    assert outer[0] == 0 && [s][0] == s;
  }

  /** What the invariants say of one open checkpoint. */
  lemma OpenCheckpoint(s: Snapshot, journal: seq<JournalEntry>, checkpoints: seq<nat>, taken: seq<Snapshot>, id: nat)
    requires CheckpointsOk(s, journal, checkpoints, taken)
    ensures |checkpoints| == |taken|
    ensures id < |checkpoints| ==>
      checkpoints[id] <= |journal| && SameAnswers(UndoAll(s, journal[checkpoints[id]..]), taken[id])
  {
  }

  lemma ExistedThen(s: Snapshot, journal: seq<JournalEntry>, taken: seq<Snapshot>, written: seq<set<Address>>, id: nat)
    requires ExistenceOk(s, journal, taken, written) && id < |taken|
    ensures |written| == |taken| && s.accounts.Keys == taken[id].accounts.Keys + written[id]
  {
  }

  lemma AnswersAgree(s: Snapshot, t: Snapshot)
    requires SameAnswers(s, t)
    ensures forall a :: AccountOf(s, a).balance == AccountOf(t, a).balance
    ensures forall a, k :: SlotOf(s, a, k) == SlotOf(t, a, k)
  {
  }

  class JournaledState {
    const state: StateDb
    var journal: seq<JournalEntry>
    var checkpoints: seq<nat>

    /** What the database held when each open checkpoint was taken. */
    ghost var taken: seq<Snapshot>

    /** For each open checkpoint, the accounts whose balance was written since, and be it undone. */
    ghost var written: seq<set<Address>>

    ghost predicate Valid()
      reads this, state
    {
      && CheckpointsOk(state.State(), journal, checkpoints, taken)
      && ExistenceOk(state.State(), journal, taken, written)
    }

    constructor (state: StateDb)
      ensures Valid() && this.state == state && journal == [] && checkpoints == [] && taken == [] && written == []
    {
      this.state := state;
      journal, checkpoints, taken, written := [], [], [], [];
    }

    /** Opens a checkpoint on top of the open ones. */
    method Checkpoint() returns (id: nat)
      requires Valid()
      modifies this
      ensures Valid() && id == |old(checkpoints)| && |checkpoints| == id + 1
      ensures taken == old(taken) + [state.State()] && written == old(written) + [{}] && journal == old(journal)
    {
      id := |checkpoints|;
      written := written + [{}];
      checkpoints := checkpoints + [|journal|];
      taken := taken + [state.State()];
      assert journal[|journal|..] == [];
    }

    /** Gives up a checkpoint and those above it; what was written stays, and can still be undone from below. */
    method CommitCheckpoint(id: nat)
      requires Valid()
      modifies `checkpoints, `taken, `written
      ensures Valid()
      ensures taken == if id < |old(taken)| then old(taken)[..id] else old(taken)
      ensures written == if id < |old(taken)| then old(written)[..id] else old(written)
    {
      if id < |checkpoints| {
        written := written[..id];
        checkpoints := checkpoints[..id];
        taken := taken[..id];
      }
    }

    /**
     * Undoes every write since a checkpoint, whatever inner checkpoints were committed or reverted in
     * between: all accounts and all storage read as when it was taken. Accounts that came to exist since go on
     * existing, empty; the account map is what it was exactly if no balance of an absent account was written.
     */
    method RevertCheckpoint(id: nat)
      requires Valid()
      modifies this, state
      ensures Valid()
      ensures id < |old(taken)| ==> SameAnswers(state.State(), old(taken)[id]) && taken == old(taken)[..id]
      ensures id < |old(taken)| ==> written == old(written)[..id]
      ensures id < |old(taken)| ==>
        && state.accounts.Keys == old(state.accounts.Keys)
        && state.accounts.Keys == old(taken)[id].accounts.Keys + old(written)[id]
        && (state.accounts == old(taken)[id].accounts <==> old(written)[id] <= old(taken)[id].accounts.Keys)
      ensures id >= |old(taken)| ==> unchanged(this) && unchanged(state)
      ensures id < |old(taken)| ==> forall a :: state.GetBalance(a) == AccountOf(old(taken)[id], a).balance
      ensures id < |old(taken)| ==> forall a, k :: state.GetStorage(a, k) == SlotOf(old(taken)[id], a, k)
    {
      hide CheckpointsOk, ExistenceOk, UndoAll, SameAnswers, AccountOf, SlotOf;
      OpenCheckpoint(state.State(), journal, checkpoints, taken, id);
      if id < |checkpoints| {
        ghost var s, j, n := state.State(), journal, checkpoints[id];
        UndoSince(checkpoints[id]);
        RevertKeeps(s, j, checkpoints, taken, id);
        RevertExists(s, j, taken, written, n, id);
        ExistedThen(s, j, taken, written, id);
        SameAccounts(state.State(), taken[id], written[id]);
        checkpoints := checkpoints[..id];
        taken, written := taken[..id], written[..id];
        AnswersAgree(state.State(), old(taken)[id]);
      }
    }

    /** Undoes the last entry again and again until a number of them is left. */
    method UndoSince(journalLen: nat)
      requires journalLen <= |journal|
      modifies `journal, state
      ensures state.State() == UndoAll(old(state.State()), old(journal)[journalLen..])
      ensures journal == old(journal)[..journalLen]
    {
      ghost var s, j := state.State(), journal;
      while |journal| > journalLen
        invariant journalLen <= |journal| <= |j| && journal == j[..|journal|]
        invariant UndoAll(state.State(), journal[journalLen..]) == UndoAll(s, j[journalLen..])
      {
        var entry := journal[|journal| - 1];
        assert journal[journalLen..][..|journal| - 1 - journalLen] == journal[..|journal| - 1][journalLen..];
        journal := journal[..|journal| - 1];
        RevertEntry(entry);
      }
      assert journal[journalLen..] == [];
    }

    method RevertEntry(entry: JournalEntry)
      modifies state
      ensures state.State() == Undo(old(state.State()), entry)
    {
      match entry
      case AccountCreated(a) => state.DeleteAccount(a);
      case AccountDestroyed(a, account) => state.SetAccount(a, account);
      case BalanceChanged(a, b) => state.SetBalance(a, b);
      case NonceChanged(a, n) => state.SetAccount(a, AccountOf(state.State(), a).(nonce := n));
      case CodeSet(a, h) => state.SetAccount(a, AccountOf(state.State(), a).(codeHash := h));
      case StorageChanged(a, k, v) => state.SetStorage(a, k, v);
    }

    method SetBalance(a: Address, balance: Word)
      requires Valid()
      modifies this, state
      ensures Valid() && taken == old(taken) && written == AlsoWritten(old(written), a)
      ensures state.State() == WithAccount(old(state.State()), a, AccountOf(old(state.State()), a).(balance := balance))
    {
      ghost var s := state.State();
      var entry := BalanceChanged(a, state.GetBalance(a));
      ghost var j := journal;
      journal := journal + [entry];
      state.SetBalance(a, balance);
      UndoBalance(s, a, balance);
      BalanceExists(s, j, taken, written, a, balance);
      written := AlsoWritten(written, a);
      WriteKeeps(s, state.State(), j, entry, checkpoints, taken);
    }

    method SetStorage(a: Address, k: Word, v: Word)
      requires Valid()
      modifies this, state
      ensures Valid() && taken == old(taken) && written == old(written)
      ensures state.State() == WithSlot(old(state.State()), a, k, v)
    {
      ghost var s := state.State();
      var entry := StorageChanged(a, k, state.GetStorage(a, k));
      ghost var j := journal;
      journal := journal + [entry];
      state.SetStorage(a, k, v);
      UndoSlot(s, a, k, v);
      SlotExists(s, j, taken, written, a, k, v);
      WriteKeeps(s, state.State(), j, entry, checkpoints, taken);
    }
  }

  /** A write to the balance of an absent account and its revert: the account exists afterwards. */
  method RevertLeavesAccount(a: Address, balance: Word) returns (state: StateDb)
    ensures fresh(state) && a in state.accounts && state.accounts[a] == Account(0, 0, 0, 0)
  {
    state := new StateDb();
    var journaled := new JournaledState(state);
    var id := journaled.Checkpoint();
    journaled.SetBalance(a, balance);
    journaled.RevertCheckpoint(id);
    assert AccountOf(state.State(), a) == EMPTY_ACCOUNT;
  }
}
