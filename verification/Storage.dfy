/** Contract storage in an account: the overlay of pending writes, the memo of values read from the
    trie, and the journal by which the state takes changes back.
 */
module Storage {
  import opened Words

  /** The value under a key in the trie with a given root; tries are content-addressed, so this
      does not change while they are used. */
  type Db = (Word, Word) -> Word

  const EMPTY_TRIE: Word := 0x56e81f171bcc55a6ff8345e692c0f86e5b48e01b996cadc001622fb5e363b421

  /** Storage without the memo. */
  datatype Store = Store(overlay: map<Word, Word>, root: Word)

  function Value(db: Db, s: Store, key: Word): (v: Word)
  {
    if key in s.overlay then s.overlay[key] else db(s.root, key)
  }

  // ---- The account ----

  datatype Op = Set(key: Word, value: Word) | Clear | SetRoot(root: Word) | Kill | Read(key: Word) | ReadOriginal(key: Word)

  function Apply(s: Store, op: Op): (s': Store)
  {
    match op
    case Set(k, v) => s.(overlay := s.overlay[k := v])
    case Clear => Store(map[], EMPTY_TRIE)
    case SetRoot(r) => Store(map[], r)
    case Kill => Store(map[], EMPTY_TRIE)
    case Read(_) => s
    case ReadOriginal(_) => s
  }

  /** What a read returns; nothing else returns anything. */
  function Answer(db: Db, s: Store, op: Op): (r: seq<Word>)
  {
    match op
    case Read(k) => [Value(db, s, k)]
    case ReadOriginal(k) => [db(s.root, k)]
    case _ => []
  }

  function Answers(db: Db, s: Store, ops: seq<Op>): (r: seq<Word>)
    decreases |ops|
  {
    if ops == [] then [] else Answer(db, s, ops[0]) + Answers(db, Apply(s, ops[0]), ops[1..])
  }

  function ApplyAll(s: Store, ops: seq<Op>): (s': Store)
    decreases |ops|
  {
    if ops == [] then s else ApplyAll(Apply(s, ops[0]), ops[1..])
  }

  class Account {
    const db: Db
    var storageOverlay: map<Word, Word>
    var storageOriginal: map<Word, Word>
    var storageRoot: Word
    var isAlive: bool
    var isUnchanged: bool

    /** Every memoised original is the value of the trie at the current root. */
    ghost predicate Valid()
      reads this
    {
      forall k :: k in storageOriginal ==> storageOriginal[k] == db(storageRoot, k)
    }

    ghost function Abs(): (s: Store)
      reads this
    {
      Store(storageOverlay, storageRoot)
    }

    constructor (db: Db, root: Word)
      ensures Valid() && Abs() == Store(map[], root) && this.db == db && isAlive
    {
      this.db := db;
      storageOverlay, storageOriginal, storageRoot := map[], map[], root;
      isAlive, isUnchanged := true, true;
    }

    /** `originalStorageValue`: from the memo, or from the trie into the memo. */
    method OriginalStorageValue(key: Word) returns (v: Word)
      requires Valid()
      modifies this`storageOriginal
      ensures Valid() && v == db(storageRoot, key)
      ensures storageOriginal == old(storageOriginal)[key := v]
    {
      if key in storageOriginal {
        assert storageOriginal == storageOriginal[key := storageOriginal[key]];
        return storageOriginal[key];
      }
      v := db(storageRoot, key);
      storageOriginal := storageOriginal[key := v];
    }

    method StorageValue(key: Word) returns (v: Word)
      requires Valid()
      modifies this`storageOriginal
      ensures Valid() && v == Value(db, Abs(), key)
    {
      if key in storageOverlay { return storageOverlay[key]; }
      v := OriginalStorageValue(key);
    }

    method SetStorage(key: Word, value: Word)
      requires Valid()
      modifies this
      ensures Valid() && Abs() == Apply(old(Abs()), Set(key, value)) && isAlive == old(isAlive) && !isUnchanged
    {
      storageOverlay := storageOverlay[key := value];
      isUnchanged := false;
    }

    method ClearStorage()
      modifies this
      ensures Valid() && Abs() == Apply(old(Abs()), Clear) && isAlive == old(isAlive) && !isUnchanged
    {
      storageOverlay := map[];
      storageOriginal := map[];
      storageRoot := EMPTY_TRIE;
      isUnchanged := false;
    }

    method SetStorageRoot(root: Word)
      modifies this
      ensures Valid() && Abs() == Apply(old(Abs()), SetRoot(root)) && isAlive == old(isAlive) && !isUnchanged
    {
      storageOverlay := map[];
      storageOriginal := map[];
      storageRoot := root;
      isUnchanged := false;
    }

    method KillAccount()
      modifies this
      ensures Valid() && Abs() == Apply(old(Abs()), Kill) && !isAlive && !isUnchanged
    {
      isAlive := false;
      storageOverlay := map[];
      storageOriginal := map[];
      storageRoot := EMPTY_TRIE;
      isUnchanged := false;
    }

    method Perform(op: Op) returns (r: seq<Word>)
      requires Valid()
      modifies this
      ensures Valid() && Abs() == Apply(old(Abs()), op) && r == Answer(db, old(Abs()), op)
    {
      r := [];
      match op
      case Set(k, v) => SetStorage(k, v);
      case Clear => ClearStorage();
      case SetRoot(root) => SetStorageRoot(root);
      case Kill => KillAccount();
      case Read(k) =>
        var v := StorageValue(k);
        r := [v];
      case ReadOriginal(k) =>
        var v := OriginalStorageValue(k);
        r := [v];
    }

    /** Whatever is done in whatever order, the account answers like one that has no memo. */
    method PerformAll(ops: seq<Op>) returns (r: seq<Word>)
      requires Valid()
      modifies this
      ensures Valid() && Abs() == ApplyAll(old(Abs()), ops) && r == Answers(db, old(Abs()), ops)
    {
      r := [];
      var i := 0;
      while i < |ops|
        invariant 0 <= i <= |ops| && Valid()
        invariant ApplyAll(Abs(), ops[i..]) == ApplyAll(old(Abs()), ops)
        invariant r + Answers(db, Abs(), ops[i..]) == Answers(db, old(Abs()), ops)
      {
        assert ops[i..][1..] == ops[i + 1..];
        var a := Perform(ops[i]);
        r := r + a;
        i := i + 1;
      }
    }
  }

  /** After a kill, and after a clear, every read answers like the empty trie; after a new root like
      that trie; after a write the key reads as written and every other as before. */
  lemma ReadsAfter(db: Db, s: Store, op: Op, key: Word)
    ensures var after := Value(db, Apply(s, op), key); var original := db(Apply(s, op).root, key);
      && (op == Kill || op == Clear ==> after == original == db(EMPTY_TRIE, key))
      && (op.SetRoot? ==> after == original == db(op.root, key))
      && (op.Set? ==> after == (if key == op.key then op.value else Value(db, s, key)) && original == db(s.root, key))
      && (op.Read? || op.ReadOriginal? ==> after == Value(db, s, key) && original == db(s.root, key))
  {
  }

  // ---- The journal ----

  /** What the log holds; `OtherChange` stands for every kind that leaves the storage of the account
      alone, such as balances, nonces and votes. */
  datatype Change = StorageChange(key: Word, value: Word) | RootChange(root: Word) | OtherChange

  datatype World = World(store: Store, log: seq<Change>)

  /** `State::setStorage`, `State::clearStorage`, and any change outside the storage. */
  datatype Act = Write(key: Word, value: Word) | Wipe | Elsewhere

  function Do(db: Db, w: World, act: Act): (w': World)
    ensures w.log <= w'.log && |w'.log| <= |w.log| + 1
  {
    match act
    case Write(k, v) =>
      World(Apply(w.store, Set(k, v)), w.log + [StorageChange(k, Value(db, w.store, k))])
    case Wipe =>
      if w.store.root == EMPTY_TRIE then w
      else World(Apply(w.store, Clear), w.log + [RootChange(w.store.root)])
    case Elsewhere => w.(log := w.log + [OtherChange])
  }

  function DoAll(db: Db, w: World, acts: seq<Act>): (w': World)
    ensures w.log <= w'.log
    decreases |acts|
  {
    if acts == [] then w else DoAll(db, Do(db, w, acts[0]), acts[1..])
  }

  function Undo(s: Store, c: Change): (s': Store)
  {
    match c
    case StorageChange(k, v) => Apply(s, Set(k, v))
    case RootChange(r) => Apply(s, SetRoot(r))
    case OtherChange => s
  }

  function Rollback(w: World, savepoint: nat): (w': World)
    requires savepoint <= |w.log|
    ensures w'.log == w.log[..savepoint]
    decreases |w.log|
  {
    if savepoint == |w.log| then w
    else
      var k := |w.log| - 1;
      Rollback(World(Undo(w.store, w.log[k]), w.log[..k]), savepoint)
  }

  class State {
    const account: Account
    var changeLog: seq<Change>

    ghost function Abs(): (w: World)
      reads this, account
    {
      World(account.Abs(), changeLog)
    }

    constructor (account: Account)
      ensures this.account == account && changeLog == []
    {
      this.account := account;
      changeLog := [];
    }

    method SetStorage(key: Word, value: Word)
      requires account.Valid()
      modifies this, account
      ensures account.Valid() && Abs() == Do(account.db, old(Abs()), Write(key, value))
    {
      var before := account.StorageValue(key);
      changeLog := changeLog + [StorageChange(key, before)];
      account.SetStorage(key, value);
    }

    method ClearStorage()
      requires account.Valid()
      modifies this, account
      ensures account.Valid() && Abs() == Do(account.db, old(Abs()), Wipe)
    {
      var oldHash := account.storageRoot;
      if oldHash == EMPTY_TRIE { return; }
      changeLog := changeLog + [RootChange(oldHash)];
      account.ClearStorage();
    }

    /** `rollback`: changes are undone from the last to the first after the savepoint. */
    method RollbackTo(savepoint: nat)
      requires account.Valid() && savepoint <= |changeLog|
      modifies this, account
      ensures account.Valid() && Abs() == Rollback(old(Abs()), savepoint)
    {
      while savepoint != |changeLog|
        invariant account.Valid() && savepoint <= |changeLog|
        invariant Rollback(Abs(), savepoint) == Rollback(old(Abs()), savepoint)
        decreases |changeLog|
      {
        var k := |changeLog| - 1;
        match changeLog[k] {
          case StorageChange(key, value) => account.SetStorage(key, value);
          case RootChange(root) => account.SetStorageRoot(root);
          case OtherChange => assert Undo(account.Abs(), OtherChange) == account.Abs();
        }
        changeLog := changeLog[..k];
      }
    }
  }

  // ---- What a rollback restores ----

  /** `key` is written before the first wipe. */
  predicate WrittenFirst(acts: seq<Act>, key: Word)
  {
    acts != [] && !acts[0].Wipe? && ((acts[0].Write? && acts[0].key == key) || WrittenFirst(acts[1..], key))
  }

  predicate Wipes(acts: seq<Act>)
  {
    acts != [] && (acts[0].Wipe? || Wipes(acts[1..]))
  }

  lemma {:induction false} RollbackSplit(w: World, n: nat, m: nat)
    requires n <= m <= |w.log|
    ensures Rollback(w, n) == Rollback(Rollback(w, m), n)
    decreases |w.log|
  {
    if m < |w.log| {
      var k := |w.log| - 1;
      RollbackSplit(World(Undo(w.store, w.log[k]), w.log[..k]), n, m);
    }
  }

  /** The value a key has after everything is taken back. */
  function Restored(db: Db, s: Store, acts: seq<Act>, key: Word): (v: Word)
  {
    if s.root != EMPTY_TRIE && Wipes(acts) && !WrittenFirst(acts, key) then db(s.root, key) else Value(db, s, key)
  }

  lemma RollbackOne(r: World, n: nat)
    requires |r.log| == n + 1
    ensures Rollback(r, n) == World(Undo(r.store, r.log[n]), r.log[..n])
  {
  }

  /** What one act more in front means for the values restored. */
  lemma RestoredFirst(db: Db, s: Store, act: Act, rest: seq<Act>, key: Word)
    ensures Restored(db, s, [act] + rest, key) == (
      match act
      case Write(k, v) => if k == key then Value(db, s, key) else Restored(db, s, rest, key)
      case Wipe => if s.root == EMPTY_TRIE then Value(db, s, key) else db(s.root, key)
      case Elsewhere => Restored(db, s, rest, key))
  {
    assert ([act] + rest)[1..] == rest;
  }

  /** Undoing one act, given what the acts after it leave. */
  lemma UndoOne(db: Db, w: World, act: Act, rest: seq<Act>, r1: World, key: Word)
    requires var w1 := Do(db, w, act);
      r1.log == w1.log && r1.store.root == w1.store.root && Value(db, r1.store, key) == Restored(db, w1.store, rest, key)
    ensures var r := Rollback(r1, |w.log|);
      r.log == w.log && r.store.root == w.store.root && Value(db, r.store, key) == Restored(db, w.store, [act] + rest, key)
  {
    RestoredFirst(db, w.store, act, rest, key);
    if |r1.log| > |w.log| {
      RollbackOne(r1, |w.log|);
      assert r1.log[..|w.log|] == w.log;
    }
  }

  lemma {:induction false} RollbackValue(db: Db, w: World, acts: seq<Act>, key: Word)
    ensures var r := Rollback(DoAll(db, w, acts), |w.log|);
            r.log == w.log && r.store.root == w.store.root && Value(db, r.store, key) == Restored(db, w.store, acts, key)
    decreases |acts|
  {
    if acts != [] {
      var w1, end := Do(db, w, acts[0]), DoAll(db, w, acts);
      RollbackValue(db, w1, acts[1..], key);
      RollbackSplit(end, |w.log|, |w1.log|);
      UndoOne(db, w, acts[0], acts[1..], Rollback(end, |w1.log|), key);
      assert acts == [acts[0]] + acts[1..];
    }
  }

  /** Taking back everything since a savepoint restores the log, the root and every value exactly
      when no wipe took effect, or each pending write that differs from the trie was overwritten
      before the first wipe: a wipe that is taken back brings the trie back, not the overlay. */
  lemma RollbackExact(db: Db, w: World, acts: seq<Act>)
    ensures var r := Rollback(DoAll(db, w, acts), |w.log|);
      && r.log == w.log && r.store.root == w.store.root
      && ((forall key: Word :: Value(db, r.store, key) == Value(db, w.store, key)) <==>
            w.store.root == EMPTY_TRIE || !Wipes(acts)
            || forall key :: key in w.store.overlay && w.store.overlay[key] != db(w.store.root, key) ==> WrittenFirst(acts, key))
  {
    var r := Rollback(DoAll(db, w, acts), |w.log|);
    RollbackValue(db, w, acts, 0);
    forall key: Word ensures Value(db, r.store, key) == Restored(db, w.store, acts, key)
    {
      RollbackValue(db, w, acts, key);
    }
    if w.store.root != EMPTY_TRIE && Wipes(acts) {
      forall key: Word ensures Restored(db, w.store, acts, key) == Value(db, w.store, key) <==>
        (key in w.store.overlay && w.store.overlay[key] != db(w.store.root, key) ==> WrittenFirst(acts, key))
      {
      }
    }
  }

  /** A pending write that is lost: one key, one wipe, one rollback. */
  lemma PendingWriteLost(db: Db, root: Word, key: Word, v: Word) returns (w: World, acts: seq<Act>)
    requires root != EMPTY_TRIE && v != db(root, key)
    ensures |w.log| == 0 && Value(db, w.store, key) == v
    ensures Value(db, Rollback(DoAll(db, w, acts), 0).store, key) != v
  {
    w, acts := World(Store(map[key := v], root), []), [Wipe];
    RollbackValue(db, w, acts, key);
  }

  /** After a wipe the storage reads like the empty trie unless the root was the empty trie already
      and a pending write differs from it: then nothing is wiped. */
  lemma WipeExact(db: Db, w: World)
    ensures (forall key: Word :: Value(db, Do(db, w, Wipe).store, key) == db(EMPTY_TRIE, key)) <==>
      !(w.store.root == EMPTY_TRIE && exists key :: key in w.store.overlay && w.store.overlay[key] != db(EMPTY_TRIE, key))
  {
    var after := Do(db, w, Wipe).store;
    if w.store.root == EMPTY_TRIE {
      assert after == w.store;
      if key :| key in w.store.overlay && w.store.overlay[key] != db(EMPTY_TRIE, key) {
        assert Value(db, after, key) != db(EMPTY_TRIE, key);
      }
    } else {
      assert after.overlay == map[];
    }
  }

  /** A write that survives a wipe. */
  lemma WriteSurvivesWipe(db: Db, key: Word, v: Word) returns (w: World)
    requires v != db(EMPTY_TRIE, key)
    ensures Value(db, Do(db, w, Wipe).store, key) == v
  {
    w := World(Store(map[key := v], EMPTY_TRIE), []);
  }
}
