/** The account database and its commit into the state trie. */
module Storage {
  import opened Primitives
  import opened TrieSpec
  import opened Trie

  type Address = a: Bytes | |a| == 20 witness seq(20, _ => 0 as byte)

  datatype AccountState = AccountState(nonce: nat, balance: nat, codeHash: Hash, storageRoot: Hash)

  const DEFAULT_ACCOUNT := AccountState(0, 0, ZERO_HASH, ZERO_HASH)

  type Encoding = AccountState -> Bytes

  ghost predicate Faithful(encode: Encoding) {
    forall a, b :: encode(a) == encode(b) ==> a == b
  }

  type Accounts = map<Address, AccountState>

  /** `k` is the key of one of the addresses. */
  ghost predicate Covers(addresses: set<Address>, k: Key) {
    exists a: Address :: a in addresses && Nibbles(a) == k
  }

  /** `t` is `before` with the given addresses set to their accounts and nothing else changed. */
  ghost predicate Overlaid(encode: Encoding, before: Tree, accounts: Accounts, addresses: set<Address>, t: Tree)
    requires addresses <= accounts.Keys
  {
    && (forall a: Address :: a in addresses ==> Lookup(t, Nibbles(a)) == Some(encode(accounts[a])))
    && forall k :: !Covers(addresses, k) ==> Lookup(t, k) == Lookup(before, k)
  }

  /** `t` holds the accounts and nothing else. */
  ghost predicate HoldsExactly(encode: Encoding, accounts: Accounts, t: Tree) {
    Overlaid(encode, Empty, accounts, accounts.Keys, t)
  }

  /** Only addresses are keys. */
  ghost predicate AddressKeys(t: Tree) {
    forall k :: Holds(t, k) ==> |k| == 40
  }

  /** The accounts that were committed determine the tree, whatever the order of the insertions. */
  lemma OverlayUnique(encode: Encoding, before: Tree, accounts: Accounts, t: Tree, t': Tree)
    requires Canonical(t) && Canonical(t')
    requires Overlaid(encode, before, accounts, accounts.Keys, t)
    requires Overlaid(encode, before, accounts, accounts.Keys, t')
    ensures t == t'
  {
    forall k ensures Lookup(t, k) == Lookup(t', k) {
      if Covers(accounts.Keys, k) {
        var a: Address :| a in accounts.Keys && Nibbles(a) == k;
      }
    }
    CanonicalUnique(t, t');
  }

  /** A state root commits to the accounts: equal trees come from equal account maps. */
  lemma HoldsExactlyInjective(encode: Encoding, a: Accounts, b: Accounts, t: Tree)
    requires Faithful(encode) && HoldsExactly(encode, a, t) && HoldsExactly(encode, b, t)
    ensures a == b
  {
    KeysWithin(encode, a, b, t);
    KeysWithin(encode, b, a, t);
    forall x: Address | x in a ensures a[x] == b[x] {
      ValuesAgree(encode, a, b, t, x);
    }
  }

  lemma ValuesAgree(encode: Encoding, a: Accounts, b: Accounts, t: Tree, x: Address)
    requires Faithful(encode) && HoldsExactly(encode, a, t) && HoldsExactly(encode, b, t) && x in a && x in b
    ensures a[x] == b[x]
  {
    assert encode(a[x]) == encode(b[x]);
  }

  lemma KeysWithin(encode: Encoding, a: Accounts, b: Accounts, t: Tree)
    requires HoldsExactly(encode, a, t) && HoldsExactly(encode, b, t)
    ensures a.Keys <= b.Keys
  {
    forall x: Address | x in a ensures x in b {
      assert Lookup(t, Nibbles(x)) == Some(encode(a[x]));
      assert Covers(b.Keys, Nibbles(x));
      var y: Address :| y in b.Keys && Nibbles(y) == Nibbles(x);
      NibblesInjective(x, y);
    }
  }

  /** Tries that hold exactly their accounts have equal roots if and only if the accounts are equal. */
  lemma StateRootBinds(digest: Digest, encode: Encoding, a: Accounts, b: Accounts, ta: Tree, tb: Tree)
    requires CollisionFree(digest) && Faithful(encode) && Canonical(ta) && Canonical(tb)
    requires HoldsExactly(encode, a, ta) && HoldsExactly(encode, b, tb)
    ensures Root(digest, ta) == Root(digest, tb) <==> a == b
  {
    if Root(digest, ta) == Root(digest, tb) {
      RootInjective(digest, ta, tb);
      HoldsExactlyInjective(encode, a, b, ta);
    }
    if a == b {
      OverlayUnique(encode, Empty, a, ta, tb);
    }
  }

  /** Some key of the tree belongs to no account: its account was deleted after an earlier commit. */
  ghost predicate Stale(accounts: Accounts, t: Tree) {
    exists k :: Holds(t, k) && !Covers(accounts.Keys, k)
  }

  /** A commit leaves exactly the accounts in the trie if and only if no deleted account lingers in it. */
  lemma CommitExactIff(encode: Encoding, before: Tree, accounts: Accounts, t: Tree)
    requires Overlaid(encode, before, accounts, accounts.Keys, t)
    ensures HoldsExactly(encode, accounts, t) <==> !Stale(accounts, before)
  {
    if Stale(accounts, before) {
      var k :| Holds(before, k) && !Covers(accounts.Keys, k);
      assert Lookup(t, k) == Lookup(before, k) != Lookup(Empty, k);
    } else {
      forall k | !Covers(accounts.Keys, k) ensures Lookup(t, k) == Lookup(Empty, k) {
        assert !Holds(before, k);
      }
    }
  }

  lemma NothingOverlaid(encode: Encoding, before: Tree, accounts: Accounts)
    ensures Overlaid(encode, before, accounts, {}, before)
  {
  }

  /** One insertion of a commit: the overlay grows by one address. */
  lemma OverlayStep(encode: Encoding, before: Tree, accounts: Accounts, done: set<Address>, address: Address,
      t: Tree, t': Tree)
    requires done <= accounts.Keys && address in accounts
    requires Overlaid(encode, before, accounts, done, t)
    requires forall k :: (Lookup(t', k) ==
      if k == Nibbles(address) then Some(encode(accounts[address])) else Lookup(t, k))
    ensures Overlaid(encode, before, accounts, done + {address}, t')
  {
    forall a: Address | a in done + {address} ensures Lookup(t', Nibbles(a)) == Some(encode(accounts[a])) {
      if Nibbles(a) == Nibbles(address) { NibblesInjective(a, address); }
    }
    forall k | !Covers(done + {address}, k) ensures Lookup(t', k) == Lookup(before, k) {
      CoversGrows(done, done + {address}, k);
      assert address in done + {address};
    }
  }

  lemma CoversGrows(small: set<Address>, big: set<Address>, k: Key)
    requires small <= big
    ensures Covers(small, k) ==> Covers(big, k)
  {
  }

  lemma AddressKeysKept(t: Tree, t': Tree, address: Address)
    requires AddressKeys(t)
    requires forall k :: k != Nibbles(address) ==> Lookup(t', k) == Lookup(t, k)
    ensures AddressKeys(t')
  {
    forall k | Holds(t', k) ensures |k| == 40 {
      if k != Nibbles(address) { assert Holds(t, k); }
    }
  }

  type Word = nat

  class StateDb {
    var accounts: Accounts

    /** Storage slots by address and key; a slot that holds zero is left out. */
    var slots: map<(Address, Word), Word>
    const trie: MerkleTrie
    const encode: Encoding

    ghost predicate Valid()
      reads this, trie
    {
      trie.Valid() && AddressKeys(trie.tree)
    }

    constructor (digest: Digest, encode: Encoding)
      requires CollisionFree(digest)
      ensures Valid() && fresh(trie) && trie.digest == digest && this.encode == encode
      ensures accounts == map[] && slots == map[] && trie.tree == Empty
      ensures forall a, k :: GetStorage(a, k) == 0
    {
      accounts, slots := map[], map[];
      trie := new MerkleTrie(digest);
      this.encode := encode;
    }

    function GetAccount(address: Address): (r: AccountState)
      reads this
      ensures address !in accounts ==> r == AccountState(0, 0, 0, 0)
      ensures address in accounts ==> r == accounts[address]
    {
      if address in accounts then accounts[address] else DEFAULT_ACCOUNT
    }

    method SetAccount(address: Address, account: AccountState)
      modifies `accounts
      ensures accounts == old(accounts)[address := account]
    {
      accounts := accounts[address := account];
    }

    function GetStorage(address: Address, key: Word): Word
      reads this
    {
      if (address, key) in slots then slots[(address, key)] else 0
    }

    /** Sets one slot; zero takes it out of the map. */
    method SetStorage(address: Address, key: Word, value: Word)
      modifies `slots
      ensures forall a, k :: GetStorage(a, k) == if a == address && k == key then value else old(GetStorage(a, k))
      ensures old(NoZeroSlots()) ==> NoZeroSlots()
    {
      slots := if value == 0 then slots - {(address, key)} else slots[(address, key) := value];
    }

    ghost predicate NoZeroSlots()
      reads this
    {
      forall s :: s in slots ==> slots[s] != 0
    }

    /** Takes the account and its slots out of the maps; the trie keeps what an earlier commit put there. */
    method DeleteAccount(address: Address)
      modifies `accounts, `slots
      ensures accounts == old(accounts) - {address}
      ensures forall a, k :: GetStorage(a, k) == if a == address then 0 else old(GetStorage(a, k))
      ensures old(NoZeroSlots()) ==> NoZeroSlots()
    {
      accounts := accounts - {address};
      slots := map s | s in slots && s.0 != address :: slots[s];
    }

    /**
     * Inserts every account, in an arbitrary order, and returns the root. No insertion panics, and the
     * result is the one canonical tree that overlays the accounts on what was committed before.
     */
    method Commit() returns (root: Hash)
      requires Valid()
      modifies trie
      ensures Valid() && root == trie.root
      ensures Overlaid(encode, old(trie.tree), accounts, accounts.Keys, trie.tree)
      ensures forall t :: (Canonical(t) && Overlaid(encode, old(trie.tree), accounts, accounts.Keys, t)
        ==> root == Root(trie.digest, t))
    {
      hide Overlaid, AddressKeys, CollisionFree, SoundTable, Stored, Canonical, Shaped;
      ghost var before := trie.tree;
      var todo := accounts.Keys;
      NothingOverlaid(encode, before, accounts);
      assert accounts.Keys - todo == {};
      while todo != {}
        invariant Valid() && todo <= accounts.Keys
        invariant Overlaid(encode, before, accounts, accounts.Keys - todo, trie.tree)
      {
        var address: Address :| address in todo;
        CommitOne(address, before, accounts.Keys - todo);
        assert accounts.Keys - todo + {address} == accounts.Keys - (todo - {address});
        todo := todo - {address};
      }
      assert accounts.Keys - todo == accounts.Keys;
      root := trie.root;
      forall t | Canonical(t) && Overlaid(encode, before, accounts, accounts.Keys, t)
        ensures root == Root(trie.digest, t)
      {
        OverlayUnique(encode, before, accounts, trie.tree, t);
      }
    }

    method CommitOne(address: Address, ghost before: Tree, ghost done: set<Address>)
      requires Valid() && address in accounts && done <= accounts.Keys
      requires Overlaid(encode, before, accounts, done, trie.tree)
      modifies trie
      ensures Valid() && Overlaid(encode, before, accounts, done + {address}, trie.tree)
    {
      ghost var t := trie.tree;
      var value := encode(accounts[address]);
      EqualLengthsNeverFail(t, Nibbles(address), value);
      PutFailsIff(t, Nibbles(address), value);
      var ok := trie.Insert(address, value);
      OverlayStep(encode, before, accounts, done, address, t, trie.tree);
      AddressKeysKept(t, trie.tree, address);
    }
  }

  /**
   * Two databases in whose tries no deleted account lingers, fresh ones for instance, commit to equal roots
   * if and only if their accounts are equal, in whatever order either of them inserts.
   */
  method CommitsAgree(a: StateDb, b: StateDb) returns (ra: Hash, rb: Hash)
    requires a.Valid() && b.Valid() && a.trie != b.trie
    requires a.trie.digest == b.trie.digest && a.encode == b.encode && Faithful(a.encode)
    requires !Stale(a.accounts, a.trie.tree) && !Stale(b.accounts, b.trie.tree)
    modifies a.trie, b.trie
    ensures ra == rb <==> a.accounts == b.accounts
  {
    hide Overlaid, Stale, Covers, Faithful, AddressKeys;
    ghost var ta, tb := a.trie.tree, b.trie.tree;
    ra := a.Commit();
    CommitExactIff(a.encode, ta, a.accounts, a.trie.tree);
    rb := b.Commit();
    CommitExactIff(b.encode, tb, b.accounts, b.trie.tree);
    StateRootBinds(a.trie.digest, a.encode, a.accounts, b.accounts, a.trie.tree, b.trie.tree);
  }

  /**
   * An account that was committed and then deleted lingers in the trie, through the next commit as well, so
   * that the root is not that of the accounts.
   */
  method DeletedAccountLingers(digest: Digest, encode: Encoding, address: Address, account: AccountState)
    returns (db: StateDb, root: Hash)
    requires CollisionFree(digest)
    ensures fresh(db) && db.Valid() && db.accounts == map[] && db.trie.digest == digest
    ensures Stale(db.accounts, db.trie.tree) && !HoldsExactly(encode, map[], db.trie.tree)
    ensures root != Root(digest, Empty)
  {
    hide CollisionFree, AddressKeys, Canonical, Shaped, Stored, SoundTable;
    db := new StateDb(digest, encode);
    db.SetAccount(address, account);
    root := db.Commit();
    assert Lookup(db.trie.tree, Nibbles(address)) == Some(encode(account));
    db.DeleteAccount(address);
    ghost var before := db.trie.tree;
    assert db.accounts == map[];
    root := db.Commit();
    assert !Covers(db.accounts.Keys, Nibbles(address));
    assert Holds(db.trie.tree, Nibbles(address));
    NotEmptyRoot(digest, db.trie.tree, Nibbles(address));
  }

  lemma NotEmptyRoot(digest: Digest, t: Tree, key: Key)
    requires CollisionFree(digest) && Holds(t, key)
    ensures Root(digest, t) != Root(digest, Empty)
  {
  }
}
