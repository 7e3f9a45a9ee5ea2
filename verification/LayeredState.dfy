/** `kabu_db.rs` and `kabu_db_helper.rs`: accounts in a mutable overlay over an optional read-only
    layer over an external database, and the flat state that this stands for. */
module LayeredState {
  import opened Options

  // ------------------------------------------------------------------ accounts

  type Address = int
  type Slot = int
  type Word = int
  type Code = seq<int>

  const ZERO_ADDRESS: Address := 0

  /** What a read of a database gives: a value, or the lack of any database to ask. */
  datatype Read<T> = Found(value: T) | NoDb

  datatype Info = Info(balance: Word, nonce: Word, codeHash: Word, code: Option<Code>)

  /** The hashes of the empty code and of no code at all, and the hash function, are parameters. */
  datatype Hashing = Hashing(empty: Word, zero: Word, keccak: Code -> Word)

  const EMPTY_CODE: Code := []

  function DefaultInfo(h: Hashing): Info { Info(0, 0, h.empty, Some(EMPTY_CODE)) }

  /** `insert_contract`, as far as the account is concerned: it completes the code hash. Given code with
      the empty hash is hashed, a zero hash becomes the empty one, and any other hash stays. */
  function Normalised(h: Hashing, info: Info): (r: Info)
    ensures r.balance == info.balance && r.nonce == info.nonce && r.code == info.code
    ensures info.codeHash != h.empty && info.codeHash != h.zero ==> r.codeHash == info.codeHash
    ensures info.codeHash == h.zero != h.empty ==> r.codeHash == h.empty
    ensures info.codeHash == h.empty && info.code in {None, Some([])} ==> r.codeHash == h.empty
    ensures info.codeHash == h.empty && info.code !in {None, Some([])} ==>
              r.codeHash == if h.keccak(info.code.value) == h.zero then h.empty else h.keccak(info.code.value)
  {
    var hashed := if info.code.Some? && info.code.value != EMPTY_CODE && info.codeHash == h.empty
                  then info.(codeHash := h.keccak(info.code.value)) else info;
    if hashed.codeHash == h.zero then hashed.(codeHash := h.empty) else hashed
  }

  datatype Status = Untouched | Touched | StorageCleared | NotExisting

  /** `FastDbAccount` */
  datatype Account = Account(info: Info, status: Status, storage: map<Slot, Word>)

  function DefaultAccount(h: Hashing): Account { Account(DefaultInfo(h), Untouched, map[]) }

  function NotExistingAccount(h: Hashing): Account { DefaultAccount(h).(status := NotExisting) }

  /** A self-destructed or missing account has no info. */
  function VisibleInfo(account: Account): Option<Info>
  {
    if account.status.NotExisting? then None else Some(account.info)
  }

  /** An account as it is loaded from below. */
  function Loaded(h: Hashing, info: Option<Info>): Account
  {
    match info
    case Some(i) => Account(i, Untouched, map[])
    case None => NotExistingAccount(h)
  }

  predicate HidesBelow(account: Account) { account.status.StorageCleared? || account.status.NotExisting? }

  // -------------------------------------------------------------------- layers

  /** An external database answers every question. */
  datatype Ext = Ext(basic: Address -> Option<Info>, storage: (Address, Slot) -> Word)

  datatype Layer = Layer(accounts: map<Address, Account>, base: Option<Layer>, ext: Option<Ext>)

  const EMPTY_EXT: Ext := Ext((a: Address) => None, (a: Address, k: Slot) => 0)

  /** `KabuDB::default` */
  const DEFAULT_LAYER: Layer := Layer(map[], None, Some(EMPTY_EXT))

  function FetchBasic(ext: Option<Ext>, a: Address): Read<Option<Info>>
  {
    if ext.Some? then Found(ext.value.basic(a)) else NoDb
  }

  function FetchStorage(ext: Option<Ext>, a: Address, k: Slot): Read<Word>
  {
    if ext.Some? then Found(ext.value.storage(a, k)) else NoDb
  }

  /** `get_or_fetch_basic`: the layer below, or else the external database. */
  function BelowBasic(h: Hashing, db: Layer, a: Address): Read<Option<Info>>
    decreases db, 0
  {
    if db.base.Some? && BasicRef(h, db.base.value, a).Some? then Found(BasicRef(h, db.base.value, a))
    else FetchBasic(db.ext, a)
  }

  /** `get_or_fetch_storage` */
  function BelowStorage(db: Layer, a: Address, k: Slot): Read<Word>
    decreases db, 0
  {
    if db.base.Some? && StorageRef(db.base.value, a, k).Found? then StorageRef(db.base.value, a, k)
    else FetchStorage(db.ext, a, k)
  }

  /** unwrap_or_default */
  function OrNone(r: Read<Option<Info>>): Option<Info> { if r.Found? then r.value else None }

  /** `basic_ref` */
  function BasicRef(h: Hashing, db: Layer, a: Address): Option<Info>
    decreases db, 1
  {
    if a == ZERO_ADDRESS then Some(DefaultInfo(h))
    else if a in db.accounts then VisibleInfo(db.accounts[a])
    else OrNone(BelowBasic(h, db, a))
  }

  /** `storage_ref` */
  function StorageRef(db: Layer, a: Address, k: Slot): Read<Word>
    decreases db, 1
  {
    if a in db.accounts then
      var account := db.accounts[a];
      if k in account.storage then Found(account.storage[k])
      else if HidesBelow(account) then Found(0)
      else BelowStorage(db, a, k)
    else BelowStorage(db, a, k)
  }

  // ------------------------------------------------------- what the levels hold

  /** The accounts of one layer, and the external database behind it. */
  datatype Level = Level(accounts: map<Address, Account>, ext: Option<Ext>)

  /** A layer and all those below it, from the top. */
  function Levels(db: Layer): seq<Level>
  {
    [Level(db.accounts, db.ext)] + (if db.base.Some? then Levels(db.base.value) else [])
  }

  /** The level holds the slot, or an account that hides all slots below it. */
  predicate Decides(level: Level, a: Address, k: Slot)
  {
    a in level.accounts
    && (k in level.accounts[a].storage || level.accounts[a].status in {StorageCleared, NotExisting})
  }

  predicate NoExt(levels: seq<Level>) { forall i :: 0 <= i < |levels| ==> levels[i].ext.None? }

  /** The answer of the lowest external database, if there is one. */
  ghost predicate LowestSlot(levels: seq<Level>, a: Address, k: Slot, r: Read<Word>)
  {
    && (NoExt(levels) ==> r == NoDb)
    && (forall i :: 0 <= i < |levels| && levels[i].ext.Some? && NoExt(levels[i + 1..]) ==>
          r == Found(levels[i].ext.value.storage(a, k)))
  }

  /** The first m levels do not decide the slot, and the next one, if any, does. */
  predicate DecidedAfter(levels: seq<Level>, m: nat, a: Address, k: Slot)
  {
    m <= |levels| && (m < |levels| ==> Decides(levels[m], a, k)) && forall i :: 0 <= i < m ==> !Decides(levels[i], a, k)
  }

  /** The first level that decides a slot gives its value, or zero; without one the lowest external
      database answers. */
  ghost predicate SlotIn(levels: seq<Level>, a: Address, k: Slot, r: Read<Word>)
  {
    forall m: nat :: DecidedAfter(levels, m, a, k) ==>
      if m == |levels| then LowestSlot(levels, a, k, r)
      else
        var storage := levels[m].accounts[a].storage;
        r == Found(if k in storage then storage[k] else 0)
  }

  /** `storage_ref` reads the levels so. */
  lemma {:induction false} SlotOfLevels(db: Layer, a: Address, k: Slot)
    ensures SlotIn(Levels(db), a, k, StorageRef(db, a, k))
    decreases db
  {
    var top := Level(db.accounts, db.ext);
    if db.base.None? {
      assert BelowStorage(db, a, k) == FetchStorage(db.ext, a, k);
      SlotAbove(top, [], a, k, NoDb, StorageRef(db, a, k));
    } else {
      SlotOfLevels(db.base.value, a, k);
      var below := StorageRef(db.base.value, a, k);
      assert BelowStorage(db, a, k) == if below.Found? then below else FetchStorage(db.ext, a, k);
      SlotAbove(top, Levels(db.base.value), a, k, StorageRef(db.base.value, a, k), StorageRef(db, a, k));
    }
  }

  /** One level on top of others. */
  lemma SlotAbove(top: Level, rest: seq<Level>, a: Address, k: Slot, below: Read<Word>, r: Read<Word>)
    requires SlotIn(rest, a, k, below)
    requires r == if Decides(top, a, k) then
                    Found(if k in top.accounts[a].storage then top.accounts[a].storage[k] else 0)
                  else if below.Found? then below else FetchStorage(top.ext, a, k)
    ensures SlotIn([top] + rest, a, k, r)
  {
    var levels := [top] + rest;
    assert levels[0] == top && levels[1..] == rest;
    forall m: nat | DecidedAfter(levels, m, a, k)
      ensures if m == |levels| then LowestSlot(levels, a, k, r)
              else
                var storage := levels[m].accounts[a].storage;
                r == Found(if k in storage then storage[k] else 0) {
      if m > 0 {
        assert !Decides(levels[0], a, k);
        assert forall i :: 0 <= i < |rest| ==> rest[i] == levels[i + 1];
        assert DecidedAfter(rest, m - 1, a, k);
        if m == |levels| { ExtAbove(top, rest, a, k, below, r); }
      }
    }
  }

  lemma ExtAbove(top: Level, rest: seq<Level>, a: Address, k: Slot, below: Read<Word>, r: Read<Word>)
    requires LowestSlot(rest, a, k, below) && r == if below.Found? then below else FetchStorage(top.ext, a, k)
    ensures LowestSlot([top] + rest, a, k, r)
  {
    var levels := [top] + rest;
    assert levels[1..] == rest;
    if !NoExt(rest) { var j := LastExt(rest); }
    forall i | 0 <= i < |levels| && levels[i].ext.Some? && NoExt(levels[i + 1..])
      ensures r == Found(levels[i].ext.value.storage(a, k)) {
      if i > 0 { assert levels[i] == rest[i - 1] && levels[i + 1..] == rest[i..]; }
    }
    if NoExt(levels) {
      assert levels[0] == top;
      assert forall i :: 0 <= i < |rest| ==> rest[i] == levels[i + 1];
    }
  }

  lemma LastExt(levels: seq<Level>) returns (i: nat)
    requires !NoExt(levels)
    ensures i < |levels| && levels[i].ext.Some? && NoExt(levels[i + 1..])
  {
    if NoExt(levels[1..]) {
      i := 0;
    } else {
      var j := LastExt(levels[1..]);
      assert levels[1..][j + 1..] == levels[j + 2..];
      i := j + 1;
    }
  }

  predicate Offers(level: Level, a: Address) { level.ext.Some? && level.ext.value.basic(a).Some? }

  predicate NoOffer(levels: seq<Level>, a: Address) { forall i :: 0 <= i < |levels| ==> !Offers(levels[i], a) }

  /** The answer of the lowest external database that knows the account. */
  ghost predicate LowestInfo(levels: seq<Level>, a: Address, r: Option<Info>)
  {
    && (NoOffer(levels, a) ==> r == None)
    && (forall i :: 0 <= i < |levels| && Offers(levels[i], a) && NoOffer(levels[i + 1..], a) ==>
          r == levels[i].ext.value.basic(a))
  }

  /** The first m levels do not hold the account, and the next one, if any, does. */
  predicate HeldAfter(levels: seq<Level>, m: nat, a: Address)
  {
    m <= |levels| && (m < |levels| ==> a in levels[m].accounts) && forall i :: 0 <= i < m ==> a !in levels[i].accounts
  }

  /** The first level that holds the account shows it, unless as one that does not exist. Then, and if no
      level holds it, the external databases of the levels above answer. */
  ghost predicate InfoIn(levels: seq<Level>, a: Address, r: Option<Info>)
  {
    forall m: nat :: HeldAfter(levels, m, a) ==>
      if m < |levels| && levels[m].accounts[a].status != NotExisting then r == Some(levels[m].accounts[a].info)
      else LowestInfo(levels[..m], a, r)
  }

  /** `basic_ref` reads the levels so; the zero address is always an empty account. */
  lemma {:induction false} InfoOfLevels(h: Hashing, db: Layer, a: Address)
    ensures a == 0 ==> BasicRef(h, db, a) == Some(Info(0, 0, h.empty, Some([])))
    ensures a != 0 ==> InfoIn(Levels(db), a, BasicRef(h, db, a))
    decreases db
  {
    var top := Level(db.accounts, db.ext);
    if a == 0 {
    } else if db.base.None? {
      assert BelowBasic(h, db, a) == FetchBasic(db.ext, a);
      InfoAbove(top, [], a, None, BasicRef(h, db, a));
    } else {
      InfoOfLevels(h, db.base.value, a);
      var below := BasicRef(h, db.base.value, a);
      assert BelowBasic(h, db, a) == if below.Some? then Found(below) else FetchBasic(db.ext, a);
      InfoAbove(top, Levels(db.base.value), a, BasicRef(h, db.base.value, a), BasicRef(h, db, a));
    }
  }

  lemma InfoAbove(top: Level, rest: seq<Level>, a: Address, below: Option<Info>, r: Option<Info>)
    requires InfoIn(rest, a, below)
    requires r == if a in top.accounts then VisibleInfo(top.accounts[a])
                  else if below.Some? then below else OrNone(FetchBasic(top.ext, a))
    ensures InfoIn([top] + rest, a, r)
  {
    var levels := [top] + rest;
    assert levels[0] == top && levels[1..] == rest;
    forall m: nat | HeldAfter(levels, m, a)
      ensures if m < |levels| && levels[m].accounts[a].status != NotExisting then r == Some(levels[m].accounts[a].info)
              else LowestInfo(levels[..m], a, r) {
      if m > 0 {
        assert forall i :: 0 <= i < |rest| ==> rest[i] == levels[i + 1];
        assert HeldAfter(rest, m - 1, a);
        if !(m < |levels| && levels[m].accounts[a].status != NotExisting) {
          OfferAbove(top, rest[..m - 1], a, below, r);
          assert levels[..m] == [top] + rest[..m - 1];
        }
      }
    }
  }

  lemma OfferAbove(top: Level, rest: seq<Level>, a: Address, below: Option<Info>, r: Option<Info>)
    requires LowestInfo(rest, a, below) && r == if below.Some? then below else OrNone(FetchBasic(top.ext, a))
    ensures LowestInfo([top] + rest, a, r)
  {
    var levels := [top] + rest;
    assert levels[1..] == rest;
    if !NoOffer(rest, a) { var j := LastOffer(rest, a); }
    forall i | 0 <= i < |levels| && Offers(levels[i], a) && NoOffer(levels[i + 1..], a)
      ensures r == levels[i].ext.value.basic(a) {
      if i > 0 { assert levels[i] == rest[i - 1] && levels[i + 1..] == rest[i..]; }
    }
    if NoOffer(levels, a) {
      assert levels[0] == top;
      assert forall i :: 0 <= i < |rest| ==> rest[i] == levels[i + 1];
    }
  }

  lemma LastOffer(levels: seq<Level>, a: Address) returns (i: nat)
    requires !NoOffer(levels, a)
    ensures i < |levels| && Offers(levels[i], a) && NoOffer(levels[i + 1..], a)
  {
    if NoOffer(levels[1..], a) {
      i := 0;
    } else {
      var j := LastOffer(levels[1..], a);
      assert levels[1..][j + 1..] == levels[j + 2..];
      i := j + 1;
    }
  }

  // ------------------------------------------------------------- the flat state

  /** One account info per address and one word per slot. */
  datatype Flat = Flat(info: Address -> Option<Info>, slot: (Address, Slot) -> Word)

  /** The layers show the flat state: every read gives its value. */
  ghost predicate Shows(h: Hashing, db: Layer, flat: Flat)
  {
    && (forall a :: a != ZERO_ADDRESS ==> BasicRef(h, db, a) == flat.info(a))
    && (forall a, k :: StorageRef(db, a, k) == Found(flat.slot(a, k)))
  }

  /** With an external database behind it, every database shows exactly one flat state, which its levels
      hold. */
  lemma ShowsItself(h: Hashing, db: Layer) returns (flat: Flat)
    requires db.ext.Some?
    ensures Shows(h, db, flat)
    ensures forall a :: a != ZERO_ADDRESS ==> InfoIn(Levels(db), a, flat.info(a))
    ensures forall a, k :: SlotIn(Levels(db), a, k, Found(flat.slot(a, k)))
  {
    flat := Flat((a: Address) => BasicRef(h, db, a), (a: Address, k: Slot) => ValueOf(db, a, k));
    forall a | a != ZERO_ADDRESS ensures InfoIn(Levels(db), a, flat.info(a)) { InfoOfLevels(h, db, a); }
    forall a, k ensures SlotIn(Levels(db), a, k, Found(flat.slot(a, k))) {
      SlotOfLevels(db, a, k);
      assert StorageRef(db, a, k) == Found(flat.slot(a, k));
    }
  }

  function ValueOf(db: Layer, a: Address, k: Slot): Word
    requires db.ext.Some?
  {
    assert BelowStorage(db, a, k).Found?;
    StorageRef(db, a, k).value
  }

  // -------------------------------------------------------------- caching reads

  /** Nothing is stored below under an address without an account. */
  ghost predicate CleanBelow(h: Hashing, db: Layer, a: Address)
  {
    OrNone(BelowBasic(h, db, a)) == None ==> ZeroBelow(db, a)
  }

  ghost predicate ZeroBelow(db: Layer, a: Address)
  {
    forall k :: BelowStorage(db, a, k) == Found(0)
  }

  /** `basic`, and `load_account`: an account not in the overlay is copied into it. */
  function CacheAccount(h: Hashing, db: Layer, a: Address): Layer
  {
    if a in db.accounts then db
    else db.(accounts := db.accounts[a := Loaded(h, OrNone(BelowBasic(h, db, a)))])
  }

  /** `storage`: the slot is copied too, and a missing account shown as empty. */
  function CacheSlot(h: Hashing, db: Layer, a: Address, k: Slot): Layer
  {
    if a in db.accounts then
      var account := db.accounts[a];
      if k in account.storage || HidesBelow(account) || BelowStorage(db, a, k).NoDb? then db
      else db.(accounts := db.accounts[a := account.(storage := account.storage[k := BelowStorage(db, a, k).value])])
    else
      match BelowBasic(h, db, a)
      case NoDb => db
      case Found(None) => db.(accounts := db.accounts[a := NotExistingAccount(h)])
      case Found(Some(info)) =>
        if BelowStorage(db, a, k).NoDb? then db
        else db.(accounts := db.accounts[a := Account(info, Untouched, map[k := BelowStorage(db, a, k).value])])
  }

  /** What `storage` returns. */
  function ReadSlot(h: Hashing, db: Layer, a: Address, k: Slot): Read<Word>
  {
    if a in db.accounts then StorageRef(db, a, k)
    else
      match BelowBasic(h, db, a)
      case NoDb => NoDb
      case Found(None) => Found(0)
      case Found(Some(_)) => BelowStorage(db, a, k)
  }

  ghost predicate OnlyAt(db: Layer, after: Layer, a: Address)
  {
    && after.base == db.base && after.ext == db.ext && a in after.accounts
    && forall b :: b != a ==> (b in after.accounts <==> b in db.accounts)
                              && (b in db.accounts ==> after.accounts[b] == db.accounts[b])
  }

  /** `basic` puts an account that was not there into the overlay, without slots: with the info it has
      below, or as one that does not exist. */
  lemma CachedAccount(h: Hashing, db: Layer, a: Address)
    ensures var after := CacheAccount(h, db, a);
            && OnlyAt(db, after, a) && (a in db.accounts ==> after == db)
            && (a !in db.accounts ==>
                  after.accounts[a]
                  == match if a == 0 && db.base.None? then OrNone(FetchBasic(db.ext, a)) else BasicRef(h, db, a)
                     case Some(info) => Account(info, Untouched, map[])
                     case None => Account(Info(0, 0, h.empty, Some([])), NotExisting, map[]))
  {
    assert db.base.Some? && a == 0 ==> BelowBasic(h, db, a) == Found(BasicRef(h, db.base.value, a));
    assert db.base.None? ==> BelowBasic(h, db, a) == FetchBasic(db.ext, a);
  }

  /** `storage` leaves the slot it read in the overlay, unless the account hides it, and nothing else. */
  lemma CachedSlot(h: Hashing, db: Layer, a: Address, k: Slot)
    requires db.ext.Some?
    ensures ReadSlot(h, db, a, k).Found?
    ensures var after := CacheSlot(h, db, a, k); var start := CacheAccount(h, db, a).accounts[a];
            var value := ReadSlot(h, db, a, k).value;
            && OnlyAt(db, after, a) && after.accounts[a].info == start.info && after.accounts[a].status == start.status
            && (if start.status in {StorageCleared, NotExisting} && k !in start.storage then
                  value == 0 && after.accounts[a].storage == start.storage
                else after.accounts[a].storage == start.storage[k := value])
  {
    assert BelowStorage(db, a, k).Found?;
    if a in db.accounts && k in db.accounts[a].storage {
      var storage := db.accounts[a].storage;
      assert storage[k := storage[k]] == storage;
    }
  }

  // ------------------------------------------------ changing one overlay account

  function WithAccount(db: Layer, a: Address, account: Account): Layer
  {
    db.(accounts := db.accounts[a := account])
  }

  /** What a slot reads as under a given overlay account. */
  function SlotUnder(db: Layer, a: Address, account: Account, k: Slot): Read<Word>
  {
    if k in account.storage then Found(account.storage[k])
    else if HidesBelow(account) then Found(0)
    else BelowStorage(db, a, k)
  }

  ghost predicate AccountShows(db: Layer, a: Address, account: Account, flat: Flat)
  {
    && (a != ZERO_ADDRESS ==> VisibleInfo(account) == flat.info(a))
    && (forall k :: SlotUnder(db, a, account, k) == Found(flat.slot(a, k)))
  }

  ghost predicate AgreeOff(a: Address, flat: Flat, other: Flat)
  {
    && (forall b :: b != a ==> flat.info(b) == other.info(b))
    && (forall b, k :: b != a ==> flat.slot(b, k) == other.slot(b, k))
  }

  lemma SameBelow(h: Hashing, db: Layer, a: Address, account: Account, b: Address, k: Slot)
    ensures var after := WithAccount(db, a, account);
            && BelowBasic(h, after, b) == BelowBasic(h, db, b) && BelowStorage(after, b, k) == BelowStorage(db, b, k)
            && (b != a ==> BasicRef(h, after, b) == BasicRef(h, db, b) && StorageRef(after, b, k) == StorageRef(db, b, k))
            && (a != ZERO_ADDRESS ==> BasicRef(h, after, a) == VisibleInfo(account))
            && StorageRef(after, a, k) == SlotUnder(db, a, account, k)
  {
    var after := WithAccount(db, a, account);
    assert BelowStorage(after, a, k) == BelowStorage(db, a, k);
  }

  /** A change of one overlay account is the flat change exactly when the account itself shows it. */
  lemma ReplacedShows(h: Hashing, db: Layer, flat: Flat, a: Address, account: Account, other: Flat)
    requires Shows(h, db, flat) && AgreeOff(a, flat, other)
    ensures Shows(h, WithAccount(db, a, account), other) <==> AccountShows(db, a, account, other)
  {
    var after := WithAccount(db, a, account);
    if AccountShows(db, a, account, other) {
      forall b | b != ZERO_ADDRESS ensures BasicRef(h, after, b) == other.info(b) {
        SameBelow(h, db, a, account, b, 0);
      }
      forall b, k ensures StorageRef(after, b, k) == Found(other.slot(b, k)) {
        SameBelow(h, db, a, account, b, k);
        assert StorageRef(db, b, k) == Found(flat.slot(b, k));
        assert SlotUnder(db, a, account, k) == Found(other.slot(a, k));
      }
    }
    if Shows(h, after, other) {
      SameBelow(h, db, a, account, a, 0);
      forall k ensures SlotUnder(db, a, account, k) == Found(other.slot(a, k)) {
        SameBelow(h, db, a, account, a, k);
        assert StorageRef(after, a, k) == Found(other.slot(a, k));
      }
    }
  }

  /** Caching an account keeps the view exactly when no slot is hidden by it. */
  lemma CacheAccountKeeps(h: Hashing, db: Layer, flat: Flat, a: Address)
    requires Shows(h, db, flat)
    ensures Shows(h, CacheAccount(h, db, a), flat) <==> a in db.accounts || CleanBelow(h, db, a)
    ensures a != ZERO_ADDRESS ==> VisibleInfo(CacheAccount(h, db, a).accounts[a]) == BasicRef(h, db, a)
  {
    if a !in db.accounts {
      var account := Loaded(h, OrNone(BelowBasic(h, db, a)));
      ReplacedShows(h, db, flat, a, account, flat);
      LoadedShows(h, db, flat, a, account);
    }
  }

  /** A slot stored under a missing account is lost by caching the account, and by reading the slot. */
  lemma CachingHides(h: Hashing, a: Address, k: Slot)
    ensures var ext := Ext((b: Address) => None, (b: Address, j: Slot) => 7);
            var db := Layer(map[], None, Some(ext));
            && StorageRef(db, a, k) == Found(7) && StorageRef(CacheAccount(h, db, a), a, k) == Found(0)
            && ReadSlot(h, db, a, k) == Found(0)
  {
    var ext := Ext((b: Address) => None, (b: Address, j: Slot) => 7);
    var db := Layer(map[], None, Some(ext));
    assert StorageRef(db, a, k) == BelowStorage(db, a, k) == Found(7);
    SameBelow(h, db, a, Loaded(h, None), a, k);
  }

  lemma LoadedShows(h: Hashing, db: Layer, flat: Flat, a: Address, account: Account)
    requires Shows(h, db, flat) && a !in db.accounts && account == Loaded(h, OrNone(BelowBasic(h, db, a)))
    ensures AccountShows(db, a, account, flat) <==> CleanBelow(h, db, a)
  {
    forall k ensures BelowStorage(db, a, k) == Found(flat.slot(a, k)) {
      assert StorageRef(db, a, k) == Found(flat.slot(a, k));
    }
    if AccountShows(db, a, account, flat) && account.status.NotExisting? {
      forall k ensures BelowStorage(db, a, k) == Found(0) { assert SlotUnder(db, a, account, k) == Found(flat.slot(a, k)); }
    }
  }

  /** Reading a slot of an account in the overlay always keeps the view; reading one that is not
      keeps it exactly when no slot is hidden below, and answers like the reference read exactly when
      this one is not. */
  lemma CacheSlotKeeps(h: Hashing, db: Layer, flat: Flat, a: Address, k: Slot)
    requires Shows(h, db, flat) && db.ext.Some?
    ensures Shows(h, CacheSlot(h, db, a, k), flat) <==> a in db.accounts || CleanBelow(h, db, a)
    ensures ReadSlot(h, db, a, k) == Found(flat.slot(a, k)) <==>
            a in db.accounts || OrNone(BelowBasic(h, db, a)) != None || BelowStorage(db, a, k) == Found(0)
  {
    assert StorageRef(db, a, k) == Found(flat.slot(a, k));
    if a in db.accounts {
      var account := db.accounts[a];
      if CacheSlot(h, db, a, k) != db {
        var cached := account.(storage := account.storage[k := BelowStorage(db, a, k).value]);
        ReplacedShows(h, db, flat, a, cached, flat);
        forall j ensures SlotUnder(db, a, cached, j) == Found(flat.slot(a, j)) {
          assert StorageRef(db, a, j) == Found(flat.slot(a, j));
        }
      }
    } else {
      var info := BelowBasic(h, db, a).value;
      var account := Loaded(h, info);
      LoadedShows(h, db, flat, a, account);
      if info.None? {
        ReplacedShows(h, db, flat, a, account, flat);
      } else {
        var cached := account.(storage := map[k := BelowStorage(db, a, k).value]);
        ReplacedShows(h, db, flat, a, cached, flat);
        forall j ensures SlotUnder(db, a, cached, j) == Found(flat.slot(a, j)) {
          assert StorageRef(db, a, j) == Found(flat.slot(a, j));
        }
      }
    }
  }

  // -------------------------------------------------------------------- commits

  /** One entry of the changes a transaction leaves, with the present values of its slots. */
  datatype Change = Change(address: Address, info: Info, storage: map<Slot, Word>,
                           touched: bool, destroyed: bool, created: bool)

  /** `commit`, for one entry. */
  function CommitOne(h: Hashing, db: Layer, ch: Change): Layer
  {
    if !ch.touched then db
    else WithAccount(db, ch.address, Committed(h, OverlayAccount(h, db, ch.address), ch))
  }

  function OverlayAccount(h: Hashing, db: Layer, a: Address): Account
  {
    if a in db.accounts then db.accounts[a] else DefaultAccount(h)
  }

  function Committed(h: Hashing, account: Account, ch: Change): Account
  {
    if ch.destroyed then NotExistingAccount(h)
    else
      Account(Normalised(h, ch.info),
              if ch.created || account.status.StorageCleared? then StorageCleared else Touched,
              (if ch.created then map[] else account.storage) + ch.storage)
  }

  /** The same on the flat state: destruction removes, creation clears, a touch overwrites. */
  function FlatCommit(h: Hashing, flat: Flat, ch: Change): Flat
  {
    if !ch.touched then flat
    else
      Flat((a: Address) => if a != ch.address then flat.info(a)
                           else if ch.destroyed then None else Some(Normalised(h, ch.info)),
           (a: Address, k: Slot) => if a != ch.address then flat.slot(a, k)
                                    else if ch.destroyed then 0
                                    else if k in ch.storage then ch.storage[k]
                                    else if ch.created then 0 else flat.slot(a, k))
  }

  /** A touch that does not create must not uncover slots that a destroyed account was hiding. */
  ghost predicate Covers(db: Layer, ch: Change)
  {
    var a := ch.address;
    ch.touched && !ch.destroyed && !ch.created && a in db.accounts && db.accounts[a].status.NotExisting?
    ==> forall k :: k !in ch.storage && k !in db.accounts[a].storage ==> BelowStorage(db, a, k) == Found(0)
  }

  /** Committing an entry is the flat update exactly when it uncovers nothing. */
  lemma CommitShows(h: Hashing, db: Layer, flat: Flat, ch: Change)
    requires Shows(h, db, flat)
    ensures Shows(h, CommitOne(h, db, ch), FlatCommit(h, flat, ch)) <==> Covers(db, ch)
  {
    if ch.touched {
      var a, before, other := ch.address, OverlayAccount(h, db, ch.address), FlatCommit(h, flat, ch);
      var account := Committed(h, before, ch);
      ReplacedShows(h, db, flat, a, account, other);
      forall k ensures StorageRef(db, a, k) == Found(flat.slot(a, k)) {}
      if Covers(db, ch) {
        forall k ensures SlotUnder(db, a, account, k) == Found(other.slot(a, k)) {
          assert StorageRef(db, a, k) == Found(flat.slot(a, k));
        }
      } else {
        var k :| k !in ch.storage && k !in db.accounts[a].storage && BelowStorage(db, a, k) != Found(0);
        assert StorageRef(db, a, k) == Found(flat.slot(a, k));
        assert SlotUnder(db, a, account, k) != Found(other.slot(a, k));
      }
    }
  }

  /** `commit`: the entries of the change set, in whatever order it is iterated. */
  function CommitAll(h: Hashing, db: Layer, changes: seq<Change>): Layer
    decreases |changes|
  {
    if changes == [] then db else CommitAll(h, CommitOne(h, db, changes[0]), changes[1..])
  }

  function FlatCommitAll(h: Hashing, flat: Flat, changes: seq<Change>): Flat
    decreases |changes|
  {
    if changes == [] then flat else FlatCommitAll(h, FlatCommit(h, flat, changes[0]), changes[1..])
  }

  /** Without the mark the old slots come back: destroy an account of the external database, then
      touch it. */
  lemma UnmarkedUncovers(h: Hashing, a: Address, k: Slot, info: Info)
    ensures var ext := Ext((b: Address) => Some(info), (b: Address, j: Slot) => 7);
            var destroy := Change(a, info, map[], true, true, false);
            var touch := Change(a, info, map[], true, false, false);
            var db := CommitAll(h, Layer(map[], None, Some(ext)), [destroy]);
            StorageRef(db, a, k) == Found(0) && StorageRef(CommitOne(h, db, touch), a, k) == Found(7)
  {
    var ext := Ext((b: Address) => Some(info), (b: Address, j: Slot) => 7);
    var destroy := Change(a, info, map[], true, true, false);
    var start := Layer(map[], None, Some(ext));
    assert CommitAll(h, start, [destroy]) == CommitOne(h, start, destroy);
  }

  // ----------------------------------------------------------------- whole runs

  datatype Op = Basic(a: Address) | Storage(a: Address, k: Slot) | Commit(changes: seq<Change>)

  datatype Answer = InfoIs(info: Option<Info>) | SlotIs(value: Read<Word>) | Done

  function Apply(h: Hashing, db: Layer, op: Op): (Layer, Answer)
  {
    match op
    case Basic(a) =>
      var after := CacheAccount(h, db, a);
      (after, InfoIs(VisibleInfo(after.accounts[a])))
    case Storage(a, k) => (CacheSlot(h, db, a, k), SlotIs(ReadSlot(h, db, a, k)))
    case Commit(changes) => (CommitAll(h, db, changes), Done)
  }

  /** On the flat state only commits change anything. */
  function FlatApply(h: Hashing, flat: Flat, op: Op): (Flat, Answer)
  {
    match op
    case Basic(a) => (flat, InfoIs(flat.info(a)))
    case Storage(a, k) => (flat, SlotIs(Found(flat.slot(a, k))))
    case Commit(changes) => (FlatCommitAll(h, flat, changes), Done)
  }

  function Run(h: Hashing, db: Layer, ops: seq<Op>): (Layer, seq<Answer>)
    decreases |ops|
  {
    if ops == [] then (db, [])
    else
      var (next, answer) := Apply(h, db, ops[0]);
      var (end, answers) := Run(h, next, ops[1..]);
      (end, [answer] + answers)
  }

  function FlatRun(h: Hashing, flat: Flat, ops: seq<Op>): (Flat, seq<Answer>)
    decreases |ops|
  {
    if ops == [] then (flat, [])
    else
      var (next, answer) := FlatApply(h, flat, ops[0]);
      var (end, answers) := FlatRun(h, next, ops[1..]);
      (end, [answer] + answers)
  }

  /** The accounts that have been self-destructed and not brought back since. */
  function Buried(dead: set<Address>, ch: Change): set<Address>
  {
    if !ch.touched then dead else if ch.destroyed then dead + {ch.address} else dead - {ch.address}
  }

  /** Bringing a self-destructed account back is marked as creating it. */
  predicate Marked(dead: set<Address>, ch: Change)
  {
    ch.touched && !ch.destroyed && ch.address in dead ==> ch.created
  }

  predicate AllMarked(dead: set<Address>, changes: seq<Change>)
    decreases |changes|
  {
    changes == [] || (Marked(dead, changes[0]) && AllMarked(Buried(dead, changes[0]), changes[1..]))
  }

  function AllBuried(dead: set<Address>, changes: seq<Change>): set<Address>
    decreases |changes|
  {
    if changes == [] then dead else AllBuried(Buried(dead, changes[0]), changes[1..])
  }

  /** A lawful run marks its creations, and does not ask for the info of the zero address. */
  predicate Lawful(dead: set<Address>, ops: seq<Op>)
    decreases |ops|
  {
    ops == [] ||
    (match ops[0]
     case Basic(a) => a != ZERO_ADDRESS && Lawful(dead, ops[1..])
     case Storage(_, _) => Lawful(dead, ops[1..])
     case Commit(changes) => AllMarked(dead, changes) && Lawful(AllBuried(dead, changes), ops[1..]))
  }

  /** Nothing is stored below under a missing account, and an overlay account that hides something
      is known to be dead. */
  ghost predicate Sound(h: Hashing, db: Layer, dead: set<Address>)
  {
    && db.ext.Some? && (forall a :: CleanBelow(h, db, a))
    && (forall a :: a in db.accounts && db.accounts[a].status.NotExisting? ==> a in dead || ZeroBelow(db, a))
  }

  lemma StaysSound(h: Hashing, db: Layer, a: Address, account: Account, dead: set<Address>, later: set<Address>)
    requires Sound(h, db, dead)
    requires account.status.NotExisting? ==> a in later || ZeroBelow(db, a)
    requires forall b :: b != a && b in dead ==> b in later
    ensures Sound(h, WithAccount(db, a, account), later)
  {
    var after := WithAccount(db, a, account);
    forall b ensures ZeroBelow(after, b) <==> ZeroBelow(db, b) {
      forall k ensures BelowStorage(after, b, k) == BelowStorage(db, b, k) { SameBelow(h, db, a, account, b, k); }
    }
    forall b ensures CleanBelow(h, after, b) {
      SameBelow(h, db, a, account, b, 0);
      assert CleanBelow(h, db, b);
    }
  }

  lemma {:induction false} CommitAllShows(h: Hashing, db: Layer, flat: Flat, changes: seq<Change>, dead: set<Address>)
    requires Shows(h, db, flat) && Sound(h, db, dead) && AllMarked(dead, changes)
    ensures Shows(h, CommitAll(h, db, changes), FlatCommitAll(h, flat, changes))
    ensures Sound(h, CommitAll(h, db, changes), AllBuried(dead, changes))
    decreases |changes|
  {
    if changes == [] {
    } else {
      var ch := changes[0];
      assert Covers(db, ch);
      CommitShows(h, db, flat, ch);
      if ch.touched {
        StaysSound(h, db, ch.address, Committed(h, OverlayAccount(h, db, ch.address), ch), dead, Buried(dead, ch));
      }
      CommitAllShows(h, CommitOne(h, db, ch), FlatCommit(h, flat, ch), changes[1..], Buried(dead, ch));
    }
  }

  lemma BasicShows(h: Hashing, db: Layer, flat: Flat, a: Address, dead: set<Address>)
    requires Shows(h, db, flat) && Sound(h, db, dead)
    ensures Shows(h, CacheAccount(h, db, a), flat) && Sound(h, CacheAccount(h, db, a), dead)
    ensures a != ZERO_ADDRESS ==> VisibleInfo(CacheAccount(h, db, a).accounts[a]) == flat.info(a)
  {
    CacheAccountKeeps(h, db, flat, a);
    assert CleanBelow(h, db, a);
    if a !in db.accounts {
      StaysSound(h, db, a, Loaded(h, OrNone(BelowBasic(h, db, a))), dead, dead);
    }
  }

  lemma StorageShows(h: Hashing, db: Layer, flat: Flat, a: Address, k: Slot, dead: set<Address>)
    requires Shows(h, db, flat) && Sound(h, db, dead)
    ensures Shows(h, CacheSlot(h, db, a, k), flat) && Sound(h, CacheSlot(h, db, a, k), dead)
    ensures ReadSlot(h, db, a, k) == Found(flat.slot(a, k))
  {
    CacheSlotKeeps(h, db, flat, a, k);
    assert CleanBelow(h, db, a);
    var after := CacheSlot(h, db, a, k);
    if after != db {
      StaysSound(h, db, a, after.accounts[a], dead, dead);
    }
  }

  /** Over every run of reads and commits, in any order, the layered database answers like the flat
      state, and ends up showing what the commits alone make of it. */
  lemma {:induction false} RunRefinesFlat(h: Hashing, db: Layer, flat: Flat, ops: seq<Op>, dead: set<Address>)
    requires Shows(h, db, flat) && Sound(h, db, dead) && Lawful(dead, ops)
    ensures Shows(h, Run(h, db, ops).0, FlatRun(h, flat, ops).0)
    ensures Run(h, db, ops).1 == FlatRun(h, flat, ops).1
    decreases |ops|
  {
    if ops == [] {
    } else {
      var op := ops[0];
      match op
      case Basic(a) =>
        BasicShows(h, db, flat, a, dead);
        RunRefinesFlat(h, CacheAccount(h, db, a), flat, ops[1..], dead);
      case Storage(a, k) =>
        StorageShows(h, db, flat, a, k, dead);
        RunRefinesFlat(h, CacheSlot(h, db, a, k), flat, ops[1..], dead);
      case Commit(changes) =>
        CommitAllShows(h, db, flat, changes, dead);
        RunRefinesFlat(h, CommitAll(h, db, changes), FlatCommitAll(h, flat, changes), ops[1..], AllBuried(dead, changes));
    }
  }
}
