/** `kabu_db.rs`: the database object. Its methods work in place on the overlay, slot by slot and
    account by account; each is proved to do what the function of the same purpose does to layers. */
module KabuDb {
  import opened Options
  import opened LayeredState
  import opened BlockUpdates

  class Database {
    const h: Hashing
    var accounts: map<Address, Account>
    var base: Option<Layer>
    var ext: Option<Ext>

    constructor (h: Hashing, base: Option<Layer>, ext: Option<Ext>)
      ensures this.h == h && Value() == Layer(map[], base, ext)
    {
      this.h := h;
      this.accounts := map[];
      this.base := base;
      this.ext := ext;
    }

    function Value(): Layer
      reads this
    {
      Layer(accounts, base, ext)
    }

    /** `load_account` */
    method LoadAccount(a: Address)
      modifies this
      ensures Value() == CacheAccount(h, old(Value()), a) && a in accounts
    {
      if a !in accounts {
        accounts := accounts[a := Loaded(h, OrNone(BelowBasic(h, Value(), a)))];
      }
    }

    /** `basic` */
    method Basic(a: Address) returns (info: Option<Info>)
      modifies this
      ensures Value() == CacheAccount(h, old(Value()), a) && info == VisibleInfo(Value().accounts[a])
    {
      if a !in accounts {
        accounts := accounts[a := Loaded(h, OrNone(BelowBasic(h, Value(), a)))];
      }
      info := VisibleInfo(accounts[a]);
    }

    /** `storage` */
    method Storage(a: Address, k: Slot) returns (value: Read<Word>)
      modifies this
      ensures Value() == CacheSlot(h, old(Value()), a, k) && value == ReadSlot(h, old(Value()), a, k)
    {
      if a in accounts {
        var account := accounts[a];
        if k in account.storage {
          return Found(account.storage[k]);
        }
        if HidesBelow(account) {
          return Found(0);
        }
        value := BelowStorage(Value(), a, k);
        if value.Found? {
          accounts := accounts[a := account.(storage := account.storage[k := value.value])];
        }
      } else {
        var info := BelowBasic(h, Value(), a);
        if info.NoDb? {
          return NoDb;
        }
        var account := Loaded(h, info.value);
        value := Found(0);
        if info.value.Some? {
          value := BelowStorage(Value(), a, k);
          if value.NoDb? {
            return NoDb;
          }
          account := account.(storage := account.storage[k := value.value]);
        }
        accounts := accounts[a := account];
      }
    }

    /** `commit` */
    method Commit(changes: seq<Change>)
      modifies this
      ensures Value() == CommitAll(h, old(Value()), changes)
    {
      ghost var start := Value();
      var i := 0;
      while i < |changes|
        invariant 0 <= i <= |changes|
        invariant CommitAll(h, Value(), changes[i..]) == CommitAll(h, start, changes)
      {
        var ch := changes[i];
        ghost var before := Value();
        if ch.touched {
          var account := if ch.address in accounts then accounts[ch.address] else DefaultAccount(h);
          if ch.destroyed {
            account := account.(storage := map[], status := NotExisting, info := DefaultInfo(h));
          } else {
            account := account.(info := Normalised(h, ch.info));
            if ch.created {
              account := account.(storage := map[], status := StorageCleared);
            } else if !account.status.StorageCleared? {
              account := account.(status := Touched);
            }
            account := account.(storage := account.storage + ch.storage);
          }
          accounts := accounts[ch.address := account];
        }
        assert Value() == CommitOne(h, before, ch);
        i := i + 1;
      }
    }

    /** `insert_account_storage` */
    method InsertAccountStorage(a: Address, k: Slot, v: Word)
      modifies this
      ensures Value() == InsertSlot(h, old(Value()), a, k, v)
    {
      LoadAccount(a);
      accounts := accounts[a := accounts[a].(storage := accounts[a].storage[k := v])];
    }

    method InsertAll(a: Address, slots: seq<(Slot, Word)>)
      modifies this
      ensures Value() == InsertSlots(h, old(Value()), a, slots)
    {
      ghost var start := Value();
      var i := 0;
      while i < |slots|
        invariant 0 <= i <= |slots|
        invariant InsertSlots(h, Value(), a, slots[i..]) == InsertSlots(h, start, a, slots)
      {
        InsertAccountStorage(a, slots[i].0, slots[i].1);
        i := i + 1;
      }
    }

    /** `apply_geth_update` */
    method ApplyGethUpdate(update: seq<(Address, Diff)>)
      modifies this
      ensures Value() == ApplyAll(h, old(Value()), update)
    {
      ghost var start := Value();
      var i := 0;
      while i < |update|
        invariant 0 <= i <= |update|
        invariant ApplyAll(h, Value(), update[i..]) == ApplyAll(h, start, update)
      {
        var (a, d) := update[i];
        ghost var before := Value();
        InsertAll(a, d.storage);
        LoadAccount(a);
        var account := accounts[a];
        if d.code.Some? {
          account := account.(info := account.info.(codeHash := h.keccak(d.code.value), code := d.code));
        }
        if d.nonce.Some? {
          account := account.(info := account.info.(nonce := d.nonce.value));
        }
        if d.balance.Some? {
          account := account.(info := account.info.(balance := d.balance.value));
        }
        accounts := accounts[a := account.(status := Touched)];
        assert Value() == ApplyDiff(h, before, a, d);
        i := i + 1;
      }
    }

    /** `merge_all`, taking the overlay accounts in any order. */
    method MergeAll()
      modifies this
      ensures Value() == Merge(h, old(Value()))
    {
      var under := if base.Some? then base.value else DEFAULT_LAYER;
      var merged := MergeAccounts(under.accounts);
      base := Some(under.(accounts := merged));
      accounts := map[];
    }

    method MergeAccounts(under: map<Address, Account>) returns (merged: map<Address, Account>)
      ensures merged == MergedAccounts(h, under, accounts)
    {
      merged := under;
      var todo: set<Address> := accounts.Keys;
      while todo != {}
        invariant todo <= accounts.Keys
        invariant merged == MergedAccounts(h, under, accounts - todo)
        decreases |todo|
      {
        SomeMember(todo);
        var a :| a in todo;
        var entry := if a in merged then merged[a] else DefaultAccount(h);
        var info := Normalised(h, accounts[a].info);
        merged := merged[a := Account(info, entry.status, entry.storage + accounts[a].storage)];
        MergedMore(h, under, accounts, todo, a);
        todo := todo - {a};
      }
      assert accounts - todo == accounts;
    }
  }

  /** Merging one account more. */
  lemma MergedMore(h: Hashing, under: map<Address, Account>, over: map<Address, Account>, todo: set<Address>, a: Address)
    requires a in todo && a in over
    ensures var done := MergedAccounts(h, under, over - todo);
            var entry := if a in done then done[a] else DefaultAccount(h);
            MergedAccounts(h, under, over - (todo - {a})) == done[a := MergedAccount(h, entry, over[a])]
  {
  }

  lemma SomeMember(s: set<Address>)
    requires s != {}
    ensures exists a :: a in s
  {
    assert (forall a :: a !in s) ==> s == {};
  }
}
