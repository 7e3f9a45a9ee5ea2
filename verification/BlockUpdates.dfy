/** `kabu_db.rs`: the block loop. State diffs from the node are applied to the overlay, and the
    overlay is merged into the read-only layer. */
module BlockUpdates {
  import opened Options
  import opened LayeredState

  // ------------------------------------------------------------------ state diffs

  /** The part of an account a block changed; slots in the order they are applied. */
  datatype Diff = Diff(balance: Option<Word>, nonce: Option<Word>, code: Option<Code>, storage: seq<(Slot, Word)>)

  function Updated(h: Hashing, info: Info, d: Diff): Info
  {
    Info(if d.balance.Some? then d.balance.value else info.balance,
         if d.nonce.Some? then d.nonce.value else info.nonce,
         if d.code.Some? then h.keccak(d.code.value) else info.codeHash,
         if d.code.Some? then d.code else info.code)
  }

  /** `insert_account_storage` */
  function InsertSlot(h: Hashing, db: Layer, a: Address, k: Slot, v: Word): Layer
  {
    var cached := CacheAccount(h, db, a);
    WithAccount(cached, a, cached.accounts[a].(storage := cached.accounts[a].storage[k := v]))
  }

  function InsertSlots(h: Hashing, db: Layer, a: Address, slots: seq<(Slot, Word)>): Layer
    decreases |slots|
  {
    if slots == [] then db else InsertSlots(h, InsertSlot(h, db, a, slots[0].0, slots[0].1), a, slots[1..])
  }

  /** `apply_geth_update`, for one account. */
  function ApplyDiff(h: Hashing, db: Layer, a: Address, d: Diff): Layer
  {
    var cached := CacheAccount(h, InsertSlots(h, db, a, d.storage), a);
    WithAccount(cached, a, Account(Updated(h, cached.accounts[a].info, d), Touched, cached.accounts[a].storage))
  }

  function ApplyAll(h: Hashing, db: Layer, update: seq<(Address, Diff)>): Layer
    decreases |update|
  {
    if update == [] then db else ApplyAll(h, ApplyDiff(h, db, update[0].0, update[0].1), update[1..])
  }

  // ------------------------------------------------------------ on the flat state

  /** The last value written to a slot, or what it held. */
  function Written(slots: seq<(Slot, Word)>, k: Slot, before: Word): Word
  {
    if slots == [] then before
    else if slots[|slots| - 1].0 == k then slots[|slots| - 1].1
    else Written(slots[..|slots| - 1], k, before)
  }

  /** The info with the given fields in the place of its own; a missing account starts from nothing. */
  function Overwritten(h: Hashing, info: Option<Info>, d: Diff): Info
  {
    Info(match d.balance case Some(b) => b case None => if info.Some? then info.value.balance else 0,
         match d.nonce case Some(n) => n case None => if info.Some? then info.value.nonce else 0,
         match d.code case Some(c) => h.keccak(c) case None => if info.Some? then info.value.codeHash else h.empty,
         match d.code case Some(c) => Some(c) case None => if info.Some? then info.value.code else Some([]))
  }

  function FlatDiff(h: Hashing, flat: Flat, a: Address, d: Diff): Flat
  {
    Flat((b: Address) => if b == a then Some(Overwritten(h, flat.info(a), d)) else flat.info(b),
         (b: Address, k: Slot) => if b == a then Written(d.storage, k, flat.slot(a, k)) else flat.slot(b, k))
  }

  function FlatAll(h: Hashing, flat: Flat, update: seq<(Address, Diff)>): Flat
    decreases |update|
  {
    if update == [] then flat else FlatAll(h, FlatDiff(h, flat, update[0].0, update[0].1), update[1..])
  }

  // ------------------------------------------------------- a diff is a flat update

  function Overlaid(storage: map<Slot, Word>, slots: seq<(Slot, Word)>): map<Slot, Word>
    decreases |slots|
  {
    if slots == [] then storage else Overlaid(storage[slots[0].0 := slots[0].1], slots[1..])
  }

  /** The account a diff starts from. */
  function StartAccount(h: Hashing, db: Layer, a: Address): Account { CacheAccount(h, db, a).accounts[a] }

  lemma {:induction false} InsertSlotsIs(h: Hashing, db: Layer, a: Address, slots: seq<(Slot, Word)>)
    ensures var account := StartAccount(h, db, a);
            CacheAccount(h, InsertSlots(h, db, a, slots), a)
            == WithAccount(db, a, account.(storage := Overlaid(account.storage, slots)))
    decreases |slots|
  {
    if slots == [] {
    } else {
      var next := InsertSlot(h, db, a, slots[0].0, slots[0].1);
      InsertSlotsIs(h, next, a, slots[1..]);
    }
  }

  lemma {:induction false} OverlaidReads(storage: map<Slot, Word>, slots: seq<(Slot, Word)>, k: Slot, before: Word)
    ensures k in storage ==> k in Overlaid(storage, slots) && Overlaid(storage, slots)[k] == Written(slots, k, storage[k])
    ensures k !in storage ==>
              Written(slots, k, before) == if k in Overlaid(storage, slots) then Overlaid(storage, slots)[k] else before
    decreases |slots|
  {
    if slots == [] {
    } else {
      OverlaidReads(storage[slots[0].0 := slots[0].1], slots[1..], k, before);
      WrittenFirst(slots, k, if k in storage then storage[k] else before);
      WrittenFirst(slots, k, before);
    }
  }

  /** Writing from the front: the first write is what the rest overwrites. */
  lemma {:induction false} WrittenFirst(slots: seq<(Slot, Word)>, k: Slot, before: Word)
    requires slots != []
    ensures Written(slots, k, before) == Written(slots[1..], k, if slots[0].0 == k then slots[0].1 else before)
    decreases |slots|
  {
    if |slots| <= 1 {
    } else {
      var front := slots[..|slots| - 1];
      WrittenFirst(front, k, before);
      assert slots[1..][..|slots| - 2] == front[1..];
    }
  }

  /** The account after a diff. */
  function DiffedAccount(h: Hashing, db: Layer, a: Address, d: Diff): Account
  {
    var account := StartAccount(h, db, a);
    Account(Updated(h, account.info, d), Touched, Overlaid(account.storage, d.storage))
  }

  lemma ApplyDiffIs(h: Hashing, db: Layer, a: Address, d: Diff)
    ensures ApplyDiff(h, db, a, d) == WithAccount(db, a, DiffedAccount(h, db, a, d))
  {
    InsertSlotsIs(h, db, a, d.storage);
  }

  /** A diff marks the account as touched. So an account that was hiding what is below it must have
      nothing to uncover, and a missing one must start from the default info. */
  ghost predicate DiffKeeps(h: Hashing, db: Layer, a: Address, d: Diff)
  {
    a in db.accounts && HidesBelow(db.accounts[a]) ==>
      var account := db.accounts[a];
      && (forall k :: k !in Overlaid(account.storage, d.storage) ==> BelowStorage(db, a, k) == Found(0))
      && (account.status.NotExisting? && a != ZERO_ADDRESS ==>
            && (d.balance.Some? || account.info.balance == 0) && (d.nonce.Some? || account.info.nonce == 0)
            && (d.code.Some? || (account.info.codeHash == h.empty && account.info.code == Some([]))))
  }

  /** The reads at one address show the flat state. */
  ghost predicate ShowsAt(h: Hashing, db: Layer, flat: Flat, a: Address)
  {
    && (a != ZERO_ADDRESS ==> BasicRef(h, db, a) == flat.info(a))
    && (forall k :: StorageRef(db, a, k) == Found(flat.slot(a, k)))
  }

  lemma ShowsEverywhere(h: Hashing, db: Layer, flat: Flat)
    ensures Shows(h, db, flat) <==> forall a :: ShowsAt(h, db, flat, a)
  {
    if forall a :: ShowsAt(h, db, flat, a) {
      forall a | a != ZERO_ADDRESS ensures BasicRef(h, db, a) == flat.info(a) { assert ShowsAt(h, db, flat, a); }
      forall a, k ensures StorageRef(db, a, k) == Found(flat.slot(a, k)) { assert ShowsAt(h, db, flat, a); }
    }
  }

  /** At its own address a diff overwrites exactly the fields and slots it mentions, if and only if
      it uncovers nothing. */
  lemma OwnDiff(h: Hashing, db: Layer, flat: Flat, a: Address, d: Diff)
    requires ShowsAt(h, db, flat, a)
    ensures ShowsAt(h, ApplyDiff(h, db, a, d), FlatDiff(h, flat, a, d), a) <==> DiffKeeps(h, db, a, d)
  {
    ApplyDiffIs(h, db, a, d);
    var start, account, other := StartAccount(h, db, a), DiffedAccount(h, db, a, d), FlatDiff(h, flat, a, d);
    var after := ApplyDiff(h, db, a, d);
    forall k ensures StorageRef(after, a, k) == SlotUnder(db, a, account, k) { SameBelow(h, db, a, account, a, k); }
    SameBelow(h, db, a, account, a, 0);
    forall k ensures StorageRef(after, a, k) == Found(other.slot(a, k)) <==>
                     (k in account.storage || !(a in db.accounts && HidesBelow(start)) || BelowStorage(db, a, k) == Found(0)) {
      DiffedSlot(h, db, flat, a, d, k);
    }
    if ShowsAt(h, after, other, a) && a in db.accounts && HidesBelow(start) {
      forall k | k !in account.storage ensures BelowStorage(db, a, k) == Found(0) {
        assert StorageRef(after, a, k) == Found(other.slot(a, k));
      }
    }
  }

  lemma DiffedSlot(h: Hashing, db: Layer, flat: Flat, a: Address, d: Diff, k: Slot)
    requires StorageRef(db, a, k) == Found(flat.slot(a, k))
    ensures var start, account := StartAccount(h, db, a), DiffedAccount(h, db, a, d);
            SlotUnder(db, a, account, k) == Found(FlatDiff(h, flat, a, d).slot(a, k)) <==>
            (k in account.storage || !(a in db.accounts && HidesBelow(start)) || BelowStorage(db, a, k) == Found(0))
  {
    OverlaidReads(StartAccount(h, db, a).storage, d.storage, k, flat.slot(a, k));
  }

  /** A diff does nothing at any other address. */
  lemma OtherDiff(h: Hashing, db: Layer, flat: Flat, b: Address, d: Diff, a: Address)
    requires a != b
    ensures ShowsAt(h, ApplyDiff(h, db, b, d), FlatDiff(h, flat, b, d), a) <==> ShowsAt(h, db, flat, a)
    ensures forall e :: DiffKeeps(h, ApplyDiff(h, db, b, d), a, e) <==> DiffKeeps(h, db, a, e)
  {
    ApplyDiffIs(h, db, b, d);
    var account, after := DiffedAccount(h, db, b, d), ApplyDiff(h, db, b, d);
    forall k ensures StorageRef(after, a, k) == StorageRef(db, a, k) && BelowStorage(after, a, k) == BelowStorage(db, a, k) {
      SameBelow(h, db, b, account, a, k);
    }
    SameBelow(h, db, b, account, a, 0);
  }

  /** Applying a diff to any database is the flat update exactly when it uncovers nothing. */
  lemma DiffShows(h: Hashing, db: Layer, flat: Flat, a: Address, d: Diff)
    requires Shows(h, db, flat)
    ensures Shows(h, ApplyDiff(h, db, a, d), FlatDiff(h, flat, a, d)) <==> DiffKeeps(h, db, a, d)
  {
    ShowsEverywhere(h, db, flat);
    var after, other := ApplyDiff(h, db, a, d), FlatDiff(h, flat, a, d);
    ShowsEverywhere(h, after, other);
    OwnDiff(h, db, flat, a, d);
    forall b | b != a ensures ShowsAt(h, after, other, b) { OtherDiff(h, db, flat, a, d, b); }
  }

  /** Field by field: after a diff an account shows the balance, the nonce and the code that were given,
      with the hash of the code, and otherwise what it showed before. */
  lemma DiffFields(h: Hashing, db: Layer, a: Address, d: Diff)
    requires a != ZERO_ADDRESS && BasicRef(h, db, a).Some?
    ensures BasicRef(h, ApplyDiff(h, db, a, d), a).Some?
    ensures var before, after := BasicRef(h, db, a).value, BasicRef(h, ApplyDiff(h, db, a, d), a).value;
            && (d.balance.Some? ==> after.balance == d.balance.value)
            && (d.balance.None? ==> after.balance == before.balance)
            && (d.nonce.Some? ==> after.nonce == d.nonce.value) && (d.nonce.None? ==> after.nonce == before.nonce)
            && (d.code.Some? ==> after.code == d.code && after.codeHash == h.keccak(d.code.value))
            && (d.code.None? ==> after.code == before.code && after.codeHash == before.codeHash)
  {
    ApplyDiffIs(h, db, a, d);
    SameBelow(h, db, a, DiffedAccount(h, db, a, d), a, 0);
  }

  /** One that is nowhere to be found starts with a zero balance and nonce, and the empty code. */
  lemma DiffCreates(h: Hashing, db: Layer, a: Address, d: Diff)
    requires a != ZERO_ADDRESS && a !in db.accounts && BasicRef(h, db, a).None?
    ensures BasicRef(h, ApplyDiff(h, db, a, d), a).Some?
    ensures var after := BasicRef(h, ApplyDiff(h, db, a, d), a).value;
            && after.balance == (if d.balance.Some? then d.balance.value else 0)
            && after.nonce == (if d.nonce.Some? then d.nonce.value else 0)
            && after.code == (if d.code.Some? then d.code else Some([]))
            && after.codeHash == (if d.code.Some? then h.keccak(d.code.value) else h.empty)
  {
    ApplyDiffIs(h, db, a, d);
    SameBelow(h, db, a, DiffedAccount(h, db, a, d), a, 0);
  }

  /** An empty diff is enough to bring back what a cleared account was hiding. */
  lemma DiffUncovers(h: Hashing, a: Address, k: Slot, info: Info)
    ensures var ext := Ext((b: Address) => Some(info), (b: Address, j: Slot) => 7);
            var db := Layer(map[a := Account(info, StorageCleared, map[])], None, Some(ext));
            var after := ApplyDiff(h, db, a, Diff(None, None, None, []));
            StorageRef(db, a, k) == Found(0) && StorageRef(after, a, k) == Found(7)
  {
    var ext := Ext((b: Address) => Some(info), (b: Address, j: Slot) => 7);
    var db := Layer(map[a := Account(info, StorageCleared, map[])], None, Some(ext));
    var d := Diff(None, None, None, []);
    ApplyDiffIs(h, db, a, d);
    SameBelow(h, db, a, DiffedAccount(h, db, a, d), a, k);
  }

  // ------------------------------------------------------------- whole updates

  /** The keys of the source's ordered map. */
  predicate Distinct(update: seq<(Address, Diff)>)
  {
    forall i, j :: 0 <= i < j < |update| ==> update[i].0 != update[j].0
  }

  lemma {:induction false} UpdateElsewhere(h: Hashing, db: Layer, flat: Flat, update: seq<(Address, Diff)>, a: Address)
    requires forall i :: 0 <= i < |update| ==> update[i].0 != a
    ensures ShowsAt(h, ApplyAll(h, db, update), FlatAll(h, flat, update), a) <==> ShowsAt(h, db, flat, a)
    decreases |update|
  {
    if update == [] {
    } else {
      var (b, d) := update[0];
      OtherDiff(h, db, flat, b, d, a);
      UpdateElsewhere(h, ApplyDiff(h, db, b, d), FlatDiff(h, flat, b, d), update[1..], a);
    }
  }

  ghost predicate KeepsAt(h: Hashing, db: Layer, update: seq<(Address, Diff)>, a: Address)
  {
    forall i :: 0 <= i < |update| && update[i].0 == a ==> DiffKeeps(h, db, a, update[i].1)
  }

  lemma {:induction false} UpdateAt(h: Hashing, db: Layer, flat: Flat, update: seq<(Address, Diff)>, a: Address)
    requires Distinct(update) && ShowsAt(h, db, flat, a)
    ensures ShowsAt(h, ApplyAll(h, db, update), FlatAll(h, flat, update), a) <==> KeepsAt(h, db, update, a)
    decreases |update|
  {
    if update == [] {
    } else {
      var (b, d) := update[0];
      var next, other, rest := ApplyDiff(h, db, b, d), FlatDiff(h, flat, b, d), update[1..];
      if b == a {
        OwnDiff(h, db, flat, a, d);
        UpdateElsewhere(h, next, other, rest, a);
        assert KeepsAt(h, db, update, a) <==> DiffKeeps(h, db, a, d);
      } else {
        OtherDiff(h, db, flat, b, d, a);
        UpdateAt(h, next, other, rest, a);
        RestKeeps(h, db, next, update, a);
      }
    }
  }

  lemma RestKeeps(h: Hashing, db: Layer, next: Layer, update: seq<(Address, Diff)>, a: Address)
    requires update != [] && update[0].0 != a && forall e :: DiffKeeps(h, next, a, e) <==> DiffKeeps(h, db, a, e)
    ensures KeepsAt(h, next, update[1..], a) <==> KeepsAt(h, db, update, a)
  {
    if KeepsAt(h, next, update[1..], a) {
      forall i | 0 <= i < |update| && update[i].0 == a ensures DiffKeeps(h, db, a, update[i].1) {
        assert update[i] == update[1..][i - 1];
      }
    }
    if KeepsAt(h, db, update, a) {
      forall i | 0 <= i < |update[1..]| && update[1..][i].0 == a ensures DiffKeeps(h, next, a, update[1..][i].1) {
        assert update[1..][i] == update[i + 1];
      }
    }
  }

  /** An update is the flat update of all its diffs exactly when none of them uncovers anything; this
      can be told from the database before the update. */
  lemma UpdateShows(h: Hashing, db: Layer, flat: Flat, update: seq<(Address, Diff)>)
    requires Shows(h, db, flat) && Distinct(update)
    ensures Shows(h, ApplyAll(h, db, update), FlatAll(h, flat, update)) <==> forall a :: KeepsAt(h, db, update, a)
  {
    ShowsEverywhere(h, db, flat);
    ShowsEverywhere(h, ApplyAll(h, db, update), FlatAll(h, flat, update));
    forall a ensures ShowsAt(h, ApplyAll(h, db, update), FlatAll(h, flat, update), a) <==> KeepsAt(h, db, update, a) {
      UpdateAt(h, db, flat, update, a);
    }
  }

  /** Overlay accounts that block updates leave behind. */
  predicate AllTouched(db: Layer) { forall a :: a in db.accounts ==> db.accounts[a].status.Touched? }

  /** In the block loop the overlay starts empty, and no diff has anything to uncover. */
  lemma {:induction false} FreshUpdateShows(h: Hashing, db: Layer, flat: Flat, update: seq<(Address, Diff)>)
    requires Shows(h, db, flat) && AllTouched(db)
    ensures Shows(h, ApplyAll(h, db, update), FlatAll(h, flat, update)) && AllTouched(ApplyAll(h, db, update))
    ensures ApplyAll(h, db, update).base == db.base && ApplyAll(h, db, update).ext == db.ext
    decreases |update|
  {
    if update == [] {
    } else {
      var (a, d) := update[0];
      DiffShows(h, db, flat, a, d);
      ApplyDiffIs(h, db, a, d);
      FreshUpdateShows(h, ApplyDiff(h, db, a, d), FlatDiff(h, flat, a, d), update[1..]);
    }
  }

  // -------------------------------------------------------------------- merging

  function BaseOr(db: Layer): Layer { if db.base.Some? then db.base.value else DEFAULT_LAYER }

  /** An overlay account on top of the one it is merged into, whose status stays. */
  function MergedAccount(h: Hashing, entry: Account, account: Account): Account
  {
    Account(Normalised(h, account.info), entry.status, entry.storage + account.storage)
  }

  function MergedAccounts(h: Hashing, under: map<Address, Account>, over: map<Address, Account>): map<Address, Account>
  {
    map a | a in under.Keys + over.Keys ::
      if a in over then MergedAccount(h, if a in under then under[a] else DefaultAccount(h), over[a]) else under[a]
  }

  function MergedBase(h: Hashing, db: Layer): Layer
  {
    BaseOr(db).(accounts := MergedAccounts(h, BaseOr(db).accounts, db.accounts))
  }

  /** `merge_all` */
  function Merge(h: Hashing, db: Layer): Layer { Layer(map[], Some(MergedBase(h, db)), db.ext) }

  /** Info up to its code hash. */
  function Bare(info: Option<Info>): Option<Info>
  {
    match info
    case Some(i) => Some(i.(codeHash := 0))
    case None => None
  }

  ghost predicate Alike(flat: Flat, other: Flat)
  {
    && (forall a :: a != ZERO_ADDRESS ==> Bare(flat.info(a)) == Bare(other.info(a)))
    && (forall a, k :: flat.slot(a, k) == other.slot(a, k))
  }

  /** The database shows the flat state, up to code hashes. */
  ghost predicate Resembles(h: Hashing, db: Layer, flat: Flat)
  {
    && (forall a :: a != ZERO_ADDRESS ==> Bare(BasicRef(h, db, a)) == Bare(flat.info(a)))
    && (forall a, k :: StorageRef(db, a, k) == Found(flat.slot(a, k)))
  }

  /** The read-only layer holds the account as one that does not exist. */
  predicate BaseDenies(db: Layer, a: Address)
  {
    a in BaseOr(db).accounts && BaseOr(db).accounts[a].status.NotExisting?
  }

  /** Merging loses the status of an overlay account. So the account must exist, unless the layer
      below denies it and the external database then says the same of it... */
  ghost predicate KeepsInfo(db: Layer, a: Address)
    requires a in db.accounts && db.ext.Some?
  {
    if BaseDenies(db, a) then Bare(db.ext.value.basic(a)) == Bare(VisibleInfo(db.accounts[a]))
    else !db.accounts[a].status.NotExisting?
  }

  /** ...and it must not be hiding slots below. */
  ghost predicate KeepsSlots(db: Layer, a: Address)
    requires a in db.accounts
  {
    HidesBelow(db.accounts[a]) ==> forall k :: k !in db.accounts[a].storage ==> BelowStorage(db, a, k) == Found(0)
  }

  lemma MergedInfo(h: Hashing, db: Layer, a: Address)
    requires a != ZERO_ADDRESS && db.base.Some? && db.ext.Some?
    ensures BasicRef(h, Merge(h, db), a)
            == if a !in db.accounts then BasicRef(h, db, a)
               else if BaseDenies(db, a) then db.ext.value.basic(a) else Some(Normalised(h, db.accounts[a].info))
  {
    var base, merged, after := db.base.value, MergedBase(h, db), Merge(h, db);
    assert BelowBasic(h, merged, a) == BelowBasic(h, base, a);
    assert BasicRef(h, after, a) == OrNone(BelowBasic(h, after, a));
    if a !in db.accounts {
      assert BasicRef(h, merged, a) == BasicRef(h, base, a);
    }
  }

  lemma MergedSlot(h: Hashing, db: Layer, a: Address, k: Slot)
    requires db.base.Some?
    ensures StorageRef(Merge(h, db), a, k)
            == if a in db.accounts && k in db.accounts[a].storage then Found(db.accounts[a].storage[k])
               else BelowStorage(db, a, k)
  {
    var base, merged, after := db.base.value, MergedBase(h, db), Merge(h, db);
    assert StorageRef(after, a, k) == BelowStorage(after, a, k);
    assert BelowStorage(merged, a, k) == BelowStorage(base, a, k);
    MergedSlotBelow(h, base, merged, db, a, k);
  }

  lemma MergedSlotBelow(h: Hashing, base: Layer, merged: Layer, db: Layer, a: Address, k: Slot)
    requires merged.accounts == MergedAccounts(h, base.accounts, db.accounts)
    requires BelowStorage(merged, a, k) == BelowStorage(base, a, k)
    ensures StorageRef(merged, a, k)
            == if a in db.accounts && k in db.accounts[a].storage then Found(db.accounts[a].storage[k])
               else StorageRef(base, a, k)
  {
    hide BelowStorage;
    if a !in db.accounts {
    } else if a in base.accounts {
      assert merged.accounts[a] == MergedAccount(h, base.accounts[a], db.accounts[a]);
    } else {
      assert merged.accounts[a] == MergedAccount(h, DefaultAccount(h), db.accounts[a]);
    }
  }

  /** When a merge loses nothing. Without a read-only layer it makes one with an empty external
      database of its own, which answers zero for every slot that was not in the overlay. */
  ghost predicate MergeKeeps(db: Layer)
    requires db.ext.Some?
  {
    if db.base.Some? then
      forall a :: a in db.accounts ==> (a != ZERO_ADDRESS ==> KeepsInfo(db, a)) && KeepsSlots(db, a)
    else
      && (forall a :: a in db.accounts && a != ZERO_ADDRESS ==> !db.accounts[a].status.NotExisting?)
      && (forall a, k :: Uncached(db, a, k) ==> StorageRef(db, a, k) == Found(0))
  }

  predicate Uncached(db: Layer, a: Address, k: Slot) { a !in db.accounts || k !in db.accounts[a].storage }

  /** A merge keeps the view exactly then, with and without a read-only layer. */
  lemma MergeResembles(h: Hashing, db: Layer, flat: Flat)
    requires Shows(h, db, flat) && db.ext.Some?
    ensures Resembles(h, Merge(h, db), flat) <==> MergeKeeps(db)
  {
    if db.base.Some? { MergeOntoBase(h, db, flat); } else { MergeOntoNothing(h, db, flat); }
  }

  lemma MergeOntoNothing(h: Hashing, db: Layer, flat: Flat)
    requires Shows(h, db, flat) && db.base.None? && db.ext.Some?
    ensures Resembles(h, Merge(h, db), flat) <==> MergeKeeps(db)
  {
    var after := Merge(h, db);
    forall a | a != ZERO_ADDRESS
      ensures Bare(BasicRef(h, after, a)) == Bare(flat.info(a)) <==>
              !(a in db.accounts && db.accounts[a].status.NotExisting?) {
      InfoWithoutBase(h, db, a);
      assert BasicRef(h, db, a) == flat.info(a);
    }
    forall a, k
      ensures StorageRef(after, a, k) == Found(flat.slot(a, k)) <==>
              (Uncached(db, a, k) ==> StorageRef(db, a, k) == Found(0)) {
      SlotWithoutBase(h, db, a, k);
      assert StorageRef(db, a, k) == Found(flat.slot(a, k));
    }
  }

  lemma InfoWithoutBase(h: Hashing, db: Layer, a: Address)
    requires db.base.None? && db.ext.Some? && a != ZERO_ADDRESS
    ensures Bare(BasicRef(h, Merge(h, db), a))
            == if a in db.accounts then Bare(Some(db.accounts[a].info)) else Bare(BasicRef(h, db, a))
  {
    var merged, after := MergedBase(h, db), Merge(h, db);
    assert BelowBasic(h, merged, a) == Found(None);
    assert BasicRef(h, after, a) == OrNone(BelowBasic(h, after, a));
    if a in db.accounts {
      assert BasicRef(h, merged, a) == Some(Normalised(h, db.accounts[a].info));
    } else {
      assert BasicRef(h, merged, a) == None;
      assert BasicRef(h, db, a) == OrNone(BelowBasic(h, db, a));
    }
  }

  lemma SlotWithoutBase(h: Hashing, db: Layer, a: Address, k: Slot)
    requires db.base.None? && db.ext.Some?
    ensures StorageRef(Merge(h, db), a, k) == if Uncached(db, a, k) then Found(0) else Found(db.accounts[a].storage[k])
  {
    var merged, after := MergedBase(h, db), Merge(h, db);
    assert BelowStorage(merged, a, k) == Found(0);
    assert StorageRef(after, a, k) == BelowStorage(after, a, k);
    assert StorageRef(merged, a, k) == if Uncached(db, a, k) then Found(0) else Found(db.accounts[a].storage[k]);
  }

  lemma MergeOntoBase(h: Hashing, db: Layer, flat: Flat)
    requires Shows(h, db, flat) && db.base.Some? && db.ext.Some?
    ensures Resembles(h, Merge(h, db), flat) <==>
            forall a :: a in db.accounts ==> (a != ZERO_ADDRESS ==> KeepsInfo(db, a)) && KeepsSlots(db, a)
  {
    var after := Merge(h, db);
    if forall a :: a in db.accounts ==> (a != ZERO_ADDRESS ==> KeepsInfo(db, a)) && KeepsSlots(db, a) {
      forall a | a != ZERO_ADDRESS ensures Bare(BasicRef(h, after, a)) == Bare(flat.info(a)) {
        MergedInfo(h, db, a);
        assert BasicRef(h, db, a) == flat.info(a);
      }
      forall a, k ensures StorageRef(after, a, k) == Found(flat.slot(a, k)) {
        MergedSlot(h, db, a, k);
        assert StorageRef(db, a, k) == Found(flat.slot(a, k));
      }
    }
    if Resembles(h, after, flat) {
      forall a | a in db.accounts ensures (a != ZERO_ADDRESS ==> KeepsInfo(db, a)) && KeepsSlots(db, a) {
        if a != ZERO_ADDRESS { MergedInfo(h, db, a); }
        forall k | k !in db.accounts[a].storage ensures BelowStorage(db, a, k) == Found(flat.slot(a, k)) {
          MergedSlot(h, db, a, k);
          assert StorageRef(after, a, k) == Found(flat.slot(a, k));
        }
        if HidesBelow(db.accounts[a]) {
          forall k | k !in db.accounts[a].storage ensures BelowStorage(db, a, k) == Found(0) {
            assert StorageRef(db, a, k) == Found(flat.slot(a, k));
          }
        }
      }
    }
  }

  /** The merge does not honour cleared storage: a slot cleared in the overlay comes back. */
  lemma MergeForgetsClearing(h: Hashing, a: Address, k: Slot, info: Info, ext: Ext)
    ensures var below := Layer(map[a := Account(info, Touched, map[k := 456])], None, None);
            var db := Layer(map[a := Account(info, StorageCleared, map[])], Some(below), Some(ext));
            StorageRef(db, a, k) == Found(0) && StorageRef(Merge(h, db), a, k) == Found(456)
  {
    var below := Layer(map[a := Account(info, Touched, map[k := 456])], None, None);
    var db := Layer(map[a := Account(info, StorageCleared, map[])], Some(below), Some(ext));
    MergedSlot(h, db, a, k);
    assert StorageRef(below, a, k) == Found(456);
  }

  /** An account destroyed by a commit comes back with the next merge, as an empty one. */
  lemma DestroyedComesBack(h: Hashing, db: Layer, ch: Change)
    requires db.base.Some? && db.ext.Some? && ch.touched && ch.destroyed && ch.address != ZERO_ADDRESS
    ensures BasicRef(h, CommitOne(h, db, ch), ch.address) == None
    ensures BasicRef(h, Merge(h, CommitOne(h, db, ch)), ch.address)
            == if BaseDenies(db, ch.address) then db.ext.value.basic(ch.address)
               else Some(Info(0, 0, h.empty, Some([])))
  {
    MergedInfo(h, CommitOne(h, db, ch), ch.address);
  }

  /** Without a read-only layer the slots of the external database are lost. */
  lemma MergeWithoutBase(h: Hashing, a: Address, k: Slot)
    ensures var ext := Ext((b: Address) => None, (b: Address, j: Slot) => 7);
            var db := Layer(map[], None, Some(ext));
            StorageRef(db, a, k) == Found(7) && StorageRef(Merge(h, db), a, k) == Found(0)
  {
    var ext := Ext((b: Address) => None, (b: Address, j: Slot) => 7);
    SlotWithoutBase(h, Layer(map[], None, Some(ext)), a, k);
  }

  // -------------------------------------------------------------- the block loop

  /** Between blocks: an empty overlay, and a read-only layer that denies no account. */
  predicate Settled(db: Layer)
  {
    db.accounts == map[] && db.ext.Some? && db.base.Some?
    && forall a :: a in db.base.value.accounts ==> !db.base.value.accounts[a].status.NotExisting?
  }

  /** `apply_geth_update`, then `maintain`. */
  function Block(h: Hashing, db: Layer, update: seq<(Address, Diff)>): Layer { Merge(h, ApplyAll(h, db, update)) }

  function Blocks(h: Hashing, db: Layer, updates: seq<seq<(Address, Diff)>>): Layer
    decreases |updates|
  {
    if updates == [] then db else Blocks(h, Block(h, db, updates[0]), updates[1..])
  }

  function FlatBlocks(h: Hashing, flat: Flat, updates: seq<seq<(Address, Diff)>>): Flat
    decreases |updates|
  {
    if updates == [] then flat else FlatBlocks(h, FlatAll(h, flat, updates[0]), updates[1..])
  }

  /** Flat updates do not look at code hashes. */
  lemma {:induction false} AlikeAll(h: Hashing, flat: Flat, other: Flat, update: seq<(Address, Diff)>)
    requires Alike(flat, other)
    ensures Alike(FlatAll(h, flat, update), FlatAll(h, other, update))
    decreases |update|
  {
    if update == [] {
    } else {
      var (a, d) := update[0];
      assert Alike(FlatDiff(h, flat, a, d), FlatDiff(h, other, a, d));
      AlikeAll(h, FlatDiff(h, flat, a, d), FlatDiff(h, other, a, d), update[1..]);
    }
  }

  /** One block: the diffs over the view before, and everything in place for the next block. */
  lemma BlockShows(h: Hashing, db: Layer, flat: Flat, update: seq<(Address, Diff)>)
    requires Settled(db) && Resembles(h, db, flat)
    ensures Settled(Block(h, db, update)) && Resembles(h, Block(h, db, update), FlatAll(h, flat, update))
  {
    var exact := ShowsItself(h, db);
    FreshUpdateShows(h, db, exact, update);
    var applied := ApplyAll(h, db, update);
    MergeResembles(h, applied, FlatAll(h, exact, update));
    forall a | a != ZERO_ADDRESS ensures Bare(exact.info(a)) == Bare(flat.info(a)) {
      assert BasicRef(h, db, a) == exact.info(a);
    }
    forall a, k ensures exact.slot(a, k) == flat.slot(a, k) {
      assert StorageRef(db, a, k) == Found(exact.slot(a, k));
    }
    AlikeAll(h, exact, flat, update);
  }

  /** Any number of blocks leaves balances, nonces, codes and slots as the diffs, folded over the
      initial view, say. */
  lemma {:induction false} BlocksFold(h: Hashing, db: Layer, flat: Flat, updates: seq<seq<(Address, Diff)>>)
    requires Settled(db) && Resembles(h, db, flat)
    ensures Settled(Blocks(h, db, updates)) && Resembles(h, Blocks(h, db, updates), FlatBlocks(h, flat, updates))
    decreases |updates|
  {
    if updates == [] {
    } else {
      BlockShows(h, db, flat, updates[0]);
      BlocksFold(h, Block(h, db, updates[0]), FlatAll(h, flat, updates[0]), updates[1..]);
    }
  }
}
