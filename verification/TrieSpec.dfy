/**
 * The trie as a value: what `MerkleTrie` stores node by node in its hash table, read back as a tree.
 * Keys are nibble sequences of any lengths. A slot of a branch without a child holds `Empty`.
 */
module TrieSpec {
  import opened Primitives

  type Nibble = n: nat | n < 16

  type Key = seq<Nibble>

  datatype Tree =
    | Empty
    | Leaf(keyEnd: Key, value: Bytes)
    | Extension(prefix: Key, child: Tree)
    | Branch(children: seq<Tree>, slot: Option<Bytes>)

  /** The value that a walk from the root of `t` along `key` ends at. */
  function Lookup(t: Tree, key: Key): Option<Bytes> {
    match t
    case Empty => None
    case Leaf(keyEnd, value) => if key == keyEnd then Some(value) else None
    case Extension(prefix, child) => if prefix <= key then Lookup(child, key[|prefix|..]) else None
    case Branch(children, slot) =>
      if key == [] then slot
      else if key[0] < |children| then Lookup(children[key[0]], key[1..])
      else None
  }

  /** Length of the longest common prefix. */
  function CommonLen(a: Key, b: Key): (n: nat)
    ensures n <= |a| && n <= |b|
    ensures a[..n] == b[..n]
    ensures n < |a| && n < |b| ==> a[n] != b[n]
  {
    if a == [] || b == [] || a[0] != b[0] then 0
    else
      var n := CommonLen(a[1..], b[1..]);
      assert a[..n + 1] == [a[0]] + a[1..][..n];
      assert b[..n + 1] == [b[0]] + b[1..][..n];
      n + 1
  }

  function Vacant(): (s: seq<Tree>)
    ensures |s| == 16 && forall i :: 0 <= i < 16 ==> s[i] == Empty
  {
    seq(16, _ => Empty)
  }

  /** `t` reached through `prefix`; no extension node is made for an empty prefix. */
  function Behind(prefix: Key, t: Tree): Tree {
    if prefix == [] then t else Extension(prefix, t)
  }

  /** The branch that separates a stored leaf from a new one, where their key ends part at once. */
  function ForkLeaf(keyEnd: Key, stored: Bytes, key: Key, value: Bytes): Tree
  {
    var s := if keyEnd != [] then Vacant()[keyEnd[0] := Leaf(keyEnd[1..], stored)] else Vacant();
    var s' := if key != [] then s[key[0] := Leaf(key[1..], value)] else s;
    Branch(s', if key == [] then Some(value) else if keyEnd == [] then Some(stored) else None)
  }

  /** The branch that separates what lies behind an extension from a new leaf. */
  function ForkExtension(prefix: Key, child: Tree, key: Key, value: Bytes): Tree
    requires prefix != [] && key != []
  {
    var s := Vacant()[prefix[0] := Behind(prefix[1..], child)];
    Branch(s[key[0] := Leaf(key[1..], value)], None)
  }

  /** The tree that an insertion builds; `None` when it indexes past the end of the key. */
  function Put(t: Tree, key: Key, value: Bytes): Option<Tree>
    requires Shaped(t)
    decreases t
  {
    match t
    case Empty => Some(Leaf(key, value))
    case Leaf(keyEnd, stored) =>
      var n := CommonLen(keyEnd, key);
      if n == |keyEnd| && n == |key| then Some(Leaf(keyEnd, value))
      else Some(Behind(key[..n], ForkLeaf(keyEnd[n..], stored, key[n..], value)))
    case Extension(prefix, child) =>
      var n := CommonLen(prefix, key);
      if n == |prefix| then
        match Put(child, key[n..], value)
        case None => None
        case Some(child') => Some(Extension(prefix, child'))
      else if n == |key| then None
      else Some(Behind(key[..n], ForkExtension(prefix[n..], child, key[n..], value)))
    case Branch(children, slot) =>
      if key == [] then Some(Branch(children, Some(value)))
      else
        match Put(children[key[0]], key[1..], value)
        case None => None
        case Some(child) => Some(Branch(children[key[0] := child], slot))
  }

  /** Every branch has sixteen slots, and an extension leads to a branch. */
  ghost predicate Shaped(t: Tree) {
    match t
    case Empty => true
    case Leaf(_, _) => true
    case Extension(_, child) => child.Branch? && Shaped(child)
    case Branch(children, _) => |children| == 16 && forall i :: 0 <= i < 16 ==> Shaped(children[i])
  }

  /** A branch is needed: two of its slots (the value slot counting as one) are taken. */
  ghost predicate Forks(children: seq<Tree>, slot: Option<Bytes>) {
    || (slot.Some? && exists i :: 0 <= i < |children| && children[i] != Empty)
    || exists i, j :: 0 <= i < j < |children| && children[i] != Empty && children[j] != Empty
  }

  /** The one shape that insertions produce. */
  ghost predicate Canonical(t: Tree) {
    match t
    case Empty => true
    case Leaf(_, _) => true
    case Extension(prefix, child) => prefix != [] && child.Branch? && Canonical(child)
    case Branch(children, slot) =>
      && |children| == 16
      && Forks(children, slot)
      && forall i :: 0 <= i < 16 ==> Canonical(children[i])
  }

  lemma {:induction t} CanonicalIsShaped(t: Tree)
    requires Canonical(t)
    ensures Shaped(t)
  {
  }

  // ---------------------------------------------------------------- what an insertion does to lookups

  lemma LookupBehind(prefix: Key, t: Tree, key: Key)
    ensures Lookup(Behind(prefix, t), key) == if prefix <= key then Lookup(t, key[|prefix|..]) else None
  {
    if prefix == [] {
      assert key[0..] == key;
    }
  }

  /** An insertion changes the answer at its own key and at no other. */
  lemma {:induction false} PutLookup(t: Tree, key: Key, value: Bytes, k: Key)
    requires Shaped(t) && Put(t, key, value).Some?
    ensures Lookup(Put(t, key, value).value, k) == if k == key then Some(value) else Lookup(t, k)
    decreases t
  {
    match t
    case Empty =>
    case Leaf(keyEnd, stored) => PutLookupLeaf(keyEnd, stored, key, value, k);
    case Extension(prefix, child) =>
      var n := CommonLen(prefix, key);
      if n == |prefix| {
        assert prefix == key[..n];
        if prefix <= k {
          PutLookup(child, key[n..], value, k[n..]);
          assert k == prefix + k[n..] && key == prefix + key[n..];
        }
      } else if n < |key| {
        PutLookupExtension(prefix, child, key, value, k, n);
      }
    case Branch(children, slot) =>
      if key != [] && k != [] && k[0] == key[0] {
        PutLookup(children[key[0]], key[1..], value, k[1..]);
        assert k == [k[0]] + k[1..] && key == [key[0]] + key[1..];
      }
  }

  lemma PutLookupLeaf(keyEnd: Key, stored: Bytes, key: Key, value: Bytes, k: Key)
    ensures Lookup(Put(Leaf(keyEnd, stored), key, value).value, k)
         == if k == key then Some(value) else Lookup(Leaf(keyEnd, stored), k)
  {
    var n := CommonLen(keyEnd, key);
    hide CommonLen;
    if n < |keyEnd| || n < |key| {
      LookupBehind(key[..n], ForkLeaf(keyEnd[n..], stored, key[n..], value), k);
      hide Behind, ForkLeaf;
      assert keyEnd == key[..n] + keyEnd[n..] && key == key[..n] + key[n..];
      if key[..n] <= k {
        assert k == key[..n] + k[n..];
        LookupForkLeaf(keyEnd[n..], stored, key[n..], value, k[n..]);
      }
    }
  }

  lemma LookupForkLeaf(keyEnd: Key, stored: Bytes, key: Key, value: Bytes, k: Key)
    requires keyEnd != key && (keyEnd == [] || key == [] || keyEnd[0] != key[0])
    ensures Lookup(ForkLeaf(keyEnd, stored, key, value), k)
         == if k == key then Some(value) else if k == keyEnd then Some(stored) else None
  {
    if k != [] {
      assert k == [k[0]] + k[1..];
      if key != [] { assert key == [key[0]] + key[1..]; }
      if keyEnd != [] { assert keyEnd == [keyEnd[0]] + keyEnd[1..]; }
    }
  }

  lemma PutLookupExtension(prefix: Key, child: Tree, key: Key, value: Bytes, k: Key, n: nat)
    requires n < |prefix| && n < |key| && prefix[..n] == key[..n] && prefix[n] != key[n]
    ensures Lookup(Behind(key[..n], ForkExtension(prefix[n..], child, key[n..], value)), k)
         == if k == key then Some(value) else Lookup(Extension(prefix, child), k)
  {
    LookupBehind(key[..n], ForkExtension(prefix[n..], child, key[n..], value), k);
    SkipShared(prefix, child, n, k);
    assert key == key[..n] + key[n..];
    if key[..n] <= k {
      assert k == key[..n] + k[n..];
      LookupForkExtension(prefix[n..], child, key[n..], value, k[n..]);
    }
  }

  lemma SkipShared(prefix: Key, child: Tree, n: nat, k: Key)
    requires n < |prefix|
    ensures Lookup(Extension(prefix, child), k)
         == if prefix[..n] <= k then Lookup(Extension(prefix[n..], child), k[n..]) else None
  {
    if prefix[..n] <= k {
      assert k == prefix[..n] + k[n..] && prefix == prefix[..n] + prefix[n..];
      assert prefix[n..] <= k[n..] ==> k == prefix[..n] + (prefix[n..] + k[n..][|prefix| - n..]);
      assert prefix <= k ==> k[n..][..|prefix| - n] == prefix[n..];
      if prefix <= k { assert k[n..][|prefix| - n..] == k[|prefix|..]; }
    }
  }

  lemma LookupForkExtension(prefix: Key, child: Tree, key: Key, value: Bytes, k: Key)
    requires prefix != [] && key != [] && prefix[0] != key[0]
    ensures Lookup(ForkExtension(prefix, child, key, value), k)
         == if k == key then Some(value) else Lookup(Extension(prefix, child), k)
  {
    if k != [] {
      assert k == [k[0]] + k[1..] && key == [key[0]] + key[1..] && prefix == [prefix[0]] + prefix[1..];
      LookupBehind(prefix[1..], child, k[1..]);
      assert prefix <= k <==> prefix[0] == k[0] && prefix[1..] <= k[1..];
      if prefix <= k { assert k[1..][|prefix| - 1..] == k[|prefix|..]; }
    }
  }

  // ---------------------------------------------------------------- insertions keep the canonical shape

  lemma {:induction false} PutCanonical(t: Tree, key: Key, value: Bytes)
    requires Canonical(t) && Shaped(t) && Put(t, key, value).Some?
    ensures Canonical(Put(t, key, value).value) && Put(t, key, value).value != Empty
    ensures t.Branch? ==> Put(t, key, value).value.Branch?
    decreases t
  {
    match t
    case Empty =>
    case Leaf(keyEnd, stored) =>
      var n := CommonLen(keyEnd, key);
      if n < |keyEnd| || n < |key| {
        ForkLeafCanonical(keyEnd[n..], stored, key[n..], value);
      }
    case Extension(prefix, child) =>
      var n := CommonLen(prefix, key);
      if n == |prefix| {
        PutCanonical(child, key[n..], value);
      } else {
        TwoSlots(ForkExtension(prefix[n..], child, key[n..], value).children, prefix[n], key[n], None);
      }
    case Branch(children, slot) =>
      if key != [] {
        PutCanonical(children[key[0]], key[1..], value);
        ForksGrows(children, slot, key[0], Put(children[key[0]], key[1..], value).value);
      }
  }

  lemma ForkLeafCanonical(keyEnd: Key, stored: Bytes, key: Key, value: Bytes)
    requires keyEnd != key && (keyEnd == [] || key == [] || keyEnd[0] != key[0])
    ensures Canonical(ForkLeaf(keyEnd, stored, key, value))
  {
    var s := ForkLeaf(keyEnd, stored, key, value).children;
    if keyEnd == [] {
      assert s[key[0]] != Empty;
    } else if key == [] {
      assert s[keyEnd[0]] != Empty;
    } else {
      TwoSlots(s, keyEnd[0], key[0], None);
    }
  }

  lemma TwoSlots(s: seq<Tree>, i: nat, j: nat, slot: Option<Bytes>)
    requires i < |s| && j < |s| && i != j && s[i] != Empty && s[j] != Empty
    ensures Forks(s, slot)
  {
    var a, b := if i < j then i else j, if i < j then j else i;
    assert 0 <= a < b < |s| && s[a] != Empty && s[b] != Empty;
  }

  lemma ForksGrows(s: seq<Tree>, slot: Option<Bytes>, i: nat, t: Tree)
    requires i < |s| && t != Empty && Forks(s, slot)
    ensures Forks(s[i := t], slot)
  {
    var s' := s[i := t];
    assert forall k :: 0 <= k < |s| && s[k] != Empty ==> s'[k] != Empty;
  }

  // ---------------------------------------------------------------- canonical trees are determined by their lookups

  ghost predicate Holds(t: Tree, key: Key) {
    Lookup(t, key).Some?
  }

  lemma {:induction false} SomeKey(t: Tree) returns (k: Key)
    requires Canonical(t) && t != Empty
    ensures Holds(t, k)
    decreases t
  {
    match t
    case Leaf(keyEnd, _) => k := keyEnd;
    case Extension(prefix, child) =>
      k := SomeKey(child);
      assert (prefix + k)[|prefix|..] == k;
      k := prefix + k;
    case Branch(children, slot) =>
      var i :| 0 <= i < 16 && children[i] != Empty;
      k := SomeKey(children[i]);
      assert ([i] + k)[1..] == k;
      k := [i] + k;
  }

  /** Whatever nibble one names, a branch holds a key that does not begin with it. */
  lemma BranchAvoids(t: Tree, x: int) returns (k: Key)
    requires Canonical(t) && t.Branch?
    ensures Holds(t, k) && (k == [] || k[0] != x)
  {
    if t.slot.Some? {
      k := [];
    } else {
      var i, j :| 0 <= i < j < 16 && t.children[i] != Empty && t.children[j] != Empty;
      var c := if i == x then j else i;
      k := SomeKey(t.children[c]);
      assert ([c] + k)[1..] == k;
      k := [c] + k;
    }
  }

  /** A branch holds two keys at least. */
  lemma BranchHoldsTwo(t: Tree) returns (a: Key, b: Key)
    requires Canonical(t) && t.Branch?
    ensures Holds(t, a) && Holds(t, b) && a != b
  {
    var i :| 0 <= i < 16 && t.children[i] != Empty;
    a := SomeKey(t.children[i]);
    assert ([i] + a)[1..] == a;
    a := [i] + a;
    b := BranchAvoids(t, i);
  }

  ghost predicate SameLookups(a: Tree, b: Tree) {
    forall k :: Lookup(a, k) == Lookup(b, k)
  }

  /** A tree with a single key is no branch and no extension. */
  lemma LeafIsNotForked(keyEnd: Key, value: Bytes, t: Tree) returns (k: Key)
    requires Canonical(t) && (t.Branch? || t.Extension?)
    ensures Lookup(Leaf(keyEnd, value), k) != Lookup(t, k)
  {
    var prefix := if t.Branch? then [] else t.prefix;
    var a, b := BranchHoldsTwo(if t.Branch? then t else t.child);
    assert (prefix + a)[|prefix|..] == a && (prefix + b)[|prefix|..] == b;
    assert Holds(t, prefix + a) && Holds(t, prefix + b);
    k := if prefix + a == keyEnd then prefix + b else prefix + a;
  }

  lemma ExtensionIsNoBranch(e: Tree, b: Tree) returns (k: Key)
    requires Canonical(e) && e.Extension? && Canonical(b) && b.Branch?
    ensures Lookup(e, k) != Lookup(b, k)
  {
    k := BranchAvoids(b, e.prefix[0]);
  }

  lemma LongerPrefixDiffers(a: Tree, b: Tree) returns (k: Key)
    requires Canonical(a) && a.Extension? && Canonical(b) && b.Extension? && |a.prefix| < |b.prefix|
    ensures Lookup(a, k) != Lookup(b, k)
  {
    var x := BranchAvoids(a.child, b.prefix[|a.prefix|]);
    k := a.prefix + x;
    assert k[|a.prefix|..] == x;
    assert x != [] ==> k[|a.prefix|] == x[0];
  }

  /** Two canonical trees that answer every lookup alike are the same tree. */
  lemma {:induction false} CanonicalUnique(a: Tree, b: Tree)
    requires Canonical(a) && Canonical(b) && SameLookups(a, b)
    ensures a == b
    decreases a
  {
    if a == Empty || b == Empty {
      if a != Empty { var k := SomeKey(a); }
      if b != Empty { var k := SomeKey(b); }
    } else if a.Leaf? && b.Leaf? {
      assert Lookup(a, a.keyEnd) == Lookup(b, a.keyEnd);
    } else if a.Leaf? {
      var k := LeafIsNotForked(a.keyEnd, a.value, b);
    } else if b.Leaf? {
      var k := LeafIsNotForked(b.keyEnd, b.value, a);
    } else if a.Extension? && b.Branch? {
      var k := ExtensionIsNoBranch(a, b);
    } else if a.Branch? && b.Extension? {
      var k := ExtensionIsNoBranch(b, a);
    } else if a.Extension? {
      ExtensionsUnique(a, b);
    } else {
      BranchesUnique(a, b);
    }
  }

  lemma {:induction false} ExtensionsUnique(a: Tree, b: Tree)
    requires Canonical(a) && a.Extension? && Canonical(b) && b.Extension? && SameLookups(a, b)
    ensures a == b
    decreases a, 0
  {
    assert |a.prefix| == |b.prefix| by {
      if |a.prefix| < |b.prefix| { var k := LongerPrefixDiffers(a, b); }
      if |b.prefix| < |a.prefix| { var k := LongerPrefixDiffers(b, a); }
    }
    var k := SomeKey(a);
    assert a.prefix == k[..|a.prefix|] && b.prefix == k[..|b.prefix|];
    forall k ensures Lookup(a.child, k) == Lookup(b.child, k) {
      assert (a.prefix + k)[|a.prefix|..] == k;
      assert Lookup(a, a.prefix + k) == Lookup(b, a.prefix + k);
    }
    CanonicalUnique(a.child, b.child);
  }

  lemma {:induction false} BranchesUnique(a: Tree, b: Tree)
    requires Canonical(a) && a.Branch? && Canonical(b) && b.Branch? && SameLookups(a, b)
    ensures a == b
    decreases a, 0
  {
    assert Lookup(a, []) == Lookup(b, []);
    forall i | 0 <= i < 16 ensures a.children[i] == b.children[i] {
      forall k: Key ensures Lookup(a.children[i], k) == Lookup(b.children[i], k) {
        assert ([i] + k)[1..] == k;
        assert Lookup(a, [i] + k) == Lookup(b, [i] + k);
      }
      CanonicalUnique(a.children[i], b.children[i]);
    }
  }

  // ---------------------------------------------------------------- sequences of insertions

  /** A run of insertions, `None` as soon as one fails. */
  ghost function PutAll(t: Tree, puts: seq<(Key, Bytes)>): (r: Option<Tree>)
    requires Canonical(t)
    ensures r.Some? ==> Canonical(r.value)
    decreases |puts|
  {
    CanonicalIsShaped(t);
    if puts == [] then Some(t)
    else
      match Put(t, puts[0].0, puts[0].1)
      case None => None
      case Some(t') =>
        PutCanonical(t, puts[0].0, puts[0].1);
        PutAll(t', puts[1..])
  }

  /** What a map holds at a key after a run of assignments: the last value assigned, or what was there. */
  ghost function Assigned(puts: seq<(Key, Bytes)>, key: Key, before: Option<Bytes>): Option<Bytes>
    decreases |puts|
  {
    if puts == [] then before
    else Assigned(puts[1..], key, if puts[0].0 == key then Some(puts[0].1) else before)
  }

  lemma {:induction false} PutAllLookup(t: Tree, puts: seq<(Key, Bytes)>, key: Key)
    requires Canonical(t) && PutAll(t, puts).Some?
    ensures Lookup(PutAll(t, puts).value, key) == Assigned(puts, key, Lookup(t, key))
    decreases |puts|
  {
    if puts != [] {
      CanonicalIsShaped(t);
      PutCanonical(t, puts[0].0, puts[0].1);
      PutLookup(t, puts[0].0, puts[0].1, key);
      PutAllLookup(Put(t, puts[0].0, puts[0].1).value, puts[1..], key);
    }
  }

  ghost predicate SameAssignments(a: seq<(Key, Bytes)>, b: seq<(Key, Bytes)>) {
    forall k: Key :: Assigned(a, k, None) == Assigned(b, k, None)
  }

  /** Two runs of insertions build the same tree exactly when they leave the same map behind. */
  lemma RunsConverge(a: seq<(Key, Bytes)>, b: seq<(Key, Bytes)>)
    requires PutAll(Empty, a).Some? && PutAll(Empty, b).Some?
    ensures PutAll(Empty, a) == PutAll(Empty, b) <==> SameAssignments(a, b)
  {
    var ta, tb := PutAll(Empty, a).value, PutAll(Empty, b).value;
    if SameAssignments(a, b) {
      forall k: Key ensures Lookup(ta, k) == Lookup(tb, k) {
        PutAllLookup(Empty, a, k);
        PutAllLookup(Empty, b, k);
        assert Assigned(a, k, None) == Assigned(b, k, None);
      }
      CanonicalUnique(ta, tb);
    }
    if ta == tb {
      forall k: Key ensures Assigned(a, k, None) == Assigned(b, k, None) {
        PutAllLookup(Empty, a, k);
        PutAllLookup(Empty, b, k);
      }
    }
  }

  // ---------------------------------------------------------------- when an insertion fails

  /** Every stored key that extends `key` goes on with the nibble `x`. */
  ghost predicate GoesOn(t: Tree, key: Key, x: Nibble) {
    forall k: Key {:trigger key + k} :: Holds(t, key + k) ==> k != [] && k[0] == x
  }

  /**
   * Several stored keys extend `key`, and all of them go on with the same nibble, so that `key` ends
   * before or inside an extension node.
   */
  ghost predicate EndsInExtension(t: Tree, key: Key) {
    && (exists x: Nibble :: GoesOn(t, key, x))
    && exists a: Key, b: Key {:trigger key + a, key + b} :: a != b && Holds(t, key + a) && Holds(t, key + b)
  }

  lemma Transfer(t: Tree, key: Key, t': Tree, key': Key)
    requires forall k: Key {:trigger key + k} {:trigger key' + k} :: Holds(t, key + k) == Holds(t', key' + k)
    ensures EndsInExtension(t, key) ==> EndsInExtension(t', key')
  {
    if EndsInExtension(t, key) {
      var x: Nibble :| GoesOn(t, key, x);
      assert GoesOn(t', key', x);
      var a: Key, b: Key :| a != b && Holds(t, key + a) && Holds(t, key + b);
      assert a != b && Holds(t', key' + a) && Holds(t', key' + b);
    }
  }

  /** An insertion fails exactly for the keys that end in an extension, whatever the value. */
  lemma {:induction false} PutFailsIff(t: Tree, key: Key, value: Bytes)
    requires Canonical(t) && Shaped(t)
    ensures Put(t, key, value).None? <==> EndsInExtension(t, key)
    decreases t
  {
    match t
    case Empty =>
    case Leaf(keyEnd, _) =>
      assert forall a: Key, b: Key {:trigger key + a, key + b} ::
          key + a == keyEnd && key + b == keyEnd ==> a == keyEnd[|key|..] == b;
    case Extension(prefix, child) =>
      var n := CommonLen(prefix, key);
      if n == |prefix| {
        forall k: Key ensures Holds(t, key + k) == Holds(child, key[n..] + k) {
          assert (key + k)[n..] == key[n..] + k;
          assert prefix == key[..n] == (key + k)[..n];
        }
        Transfer(t, key, child, key[n..]);
        Transfer(child, key[n..], t, key);
        PutFailsIff(child, key[n..], value);
      } else if n == |key| {
        KeyInsideExtension(t, key);
      } else {
        forall k: Key ensures !Holds(t, key + k) {
          assert (key + k)[n] == key[n];
        }
      }
    case Branch(children, slot) =>
      if key == [] {
        forall x: Nibble ensures !GoesOn(t, key, x) {
          var k := BranchAvoids(t, x);
          assert key + k == k;
        }
      } else {
        var child := children[key[0]];
        forall k: Key ensures Holds(t, key + k) == Holds(child, key[1..] + k) {
          assert (key + k)[1..] == key[1..] + k;
        }
        Transfer(t, key, child, key[1..]);
        Transfer(child, key[1..], t, key);
        PutFailsIff(child, key[1..], value);
      }
  }

  lemma KeyInsideExtension(t: Tree, key: Key)
    requires Canonical(t) && t.Extension? && key <= t.prefix && |key| < |t.prefix|
    ensures EndsInExtension(t, key)
  {
    var x: Nibble := t.prefix[|key|];
    forall k: Key | Holds(t, key + k) ensures k != [] && k[0] == x {
      assert t.prefix <= key + k;
      assert (key + k)[|key|] == x;
    }
    assert GoesOn(t, key, x);
    var rest := t.prefix[|key|..];
    assert t.prefix == key + rest;
    var a, b := BranchHoldsTwo(t.child);
    assert key + (rest + a) == t.prefix + a && key + (rest + b) == t.prefix + b;
    assert (t.prefix + a)[|t.prefix|..] == a && (t.prefix + b)[|t.prefix|..] == b;
    assert Holds(t, key + (rest + a)) && Holds(t, key + (rest + b));
    assert (rest + a)[|rest|..] == a && (rest + b)[|rest|..] == b;
  }

  /** Keys of one common length, such as addresses, never fail. */
  lemma EqualLengthsNeverFail(t: Tree, key: Key, value: Bytes)
    requires Canonical(t) && Shaped(t)
    requires forall k :: Holds(t, k) ==> |k| == |key|
    ensures Put(t, key, value).Some?
  {
    PutFailsIff(t, key, value);
    forall a: Key, b: Key | Holds(t, key + a) && Holds(t, key + b) ensures a == b {
      assert |key + a| == |key + b| == |key|;
      assert a == [] == b;
    }
  }
}
