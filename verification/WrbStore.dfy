/** The store's objects: the database, its write buffer and an open transaction.  Each method does
    what the relations of `KvStore` allow, with the write buffer empty between calls. */
module WrbStore {
  import opened Prelude
  import opened KvStore
  import opened KvLimits

  class WriteBuffer {
    var pendingHashes: seq<(Key, Hash)>
    var pendingData: map<Hash, Value>
    var pendingIndex: map<Key, nat>

    function Value(): Buffer
      reads this
    {
      Buffer(pendingHashes, pendingData, pendingIndex)
    }

    constructor ()
      ensures Value() == EMPTY
    {
      pendingHashes, pendingData, pendingIndex := [], map[], map[];
    }

    method Put(hash: Value -> Hash, key: Key, value: Value)
      modifies this
      ensures Value() == BufferPut(hash, old(Value()), (key, value))
    {
      pendingHashes := pendingHashes + [(key, hash(value))];
      pendingIndex := pendingIndex[key := |pendingHashes|];
      pendingData := pendingData[hash(value) := value];
    }

    method Get(key: Key) returns (r: Pending)
      ensures r == BufferGet(Value(), key)
    {
      if key !in pendingIndex {
        return Absent;
      }
      if pendingIndex[key] >= |pendingHashes| {
        return OutOfRange;
      }
      var hash := pendingHashes[pendingIndex[key]].1;
      return if hash in pendingData then Found(pendingData[hash]) else Absent;
    }

    /** Drains the buffer into the table; fails when the height does not fit its column. */
    method Dump(hash: Value -> Hash, ghost items: Items, db: Db, curTip: Tip, nextTip: Tip)
      returns (ok: bool, out: Db, nextHeight: nat)
      requires Ideal(hash) && Value() == BufferPuts(hash, items)
      modifies this
      ensures NextHeight(db, curTip, nextHeight)
      ensures
        var height := if curTip == BOOT then nextHeight - 1 else nextHeight;
        && ok == (items == [] || height <= MAX_HEIGHT)
        && (ok ==> Value() == EMPTY)
        && (ok ==> out == Inserts(hash, db, if curTip == BOOT then curTip else nextTip, height, items))
      ensures !ok ==> out == db
    {
      nextHeight := HeightAbove(db, curTip);
      var height := if curTip == BOOT then nextHeight - 1 else nextHeight;
      BufferLength(hash, items);
      if pendingHashes != [] && height > MAX_HEIGHT {
        return false, db, nextHeight;
      }
      out := Drain(hash, items, db, if curTip == BOOT then curTip else nextTip, height);
      pendingHashes, pendingData, pendingIndex := [], map[], map[];
      ok := true;
    }

    method HeightAbove(db: Db, tip: Tip) returns (h: nat)
      ensures NextHeight(db, tip, h) && h > 0
    {
      if r :| r in db.rows.Keys && r.tip == tip {
        assert HasHeight(db, tip, r.height);
        return r.height + 1;
      }
      return 1;
    }

    /** Writes every pending row and its value. */
    method Drain(hash: Value -> Hash, ghost items: Items, db: Db, tip: Tip, height: nat) returns (out: Db)
      requires Ideal(hash) && Value() == BufferPuts(hash, items)
      ensures out == Inserts(hash, db, tip, height, items)
    {
      BufferHolds(hash, items);
      out := db;
      var i := 0;
      while i < |pendingHashes|
        invariant 0 <= i <= |pendingHashes| == |items|
        invariant out == Inserts(hash, db, tip, height, items[..i])
      {
        var (key, valueHash) := pendingHashes[i];
        assert (key, valueHash) == (items[i].0, hash(items[i].1));
        assert items[..i + 1][..i] == items[..i];
        out := Db(out.rows[Row(tip, height, key) := valueHash], out.side[valueHash := pendingData[valueHash]]);
        i := i + 1;
      }
      assert items[..i] == items;
    }
  }

  lemma SomeRowIsFirst(rows: set<Row>) returns (top: Row)
    requires rows != {}
    ensures top in rows && forall q | q in rows :: NoLater(top, q)
    decreases |rows|
  {
    var r :| r in rows;
    NoLaterOrders(r, r, r);
    if rows == {r} {
      top := r;
    } else {
      var other := SomeRowIsFirst(rows - {r});
      NoLaterOrders(r, other, other);
      top := if NoLater(r, other) then r else other;
      forall q | q in rows ensures NoLater(top, q) {
        NoLaterOrders(r, other, q);
        assert q == r || q in rows - {r};
      }
    }
  }

  lemma SomeRowIsHighest(rows: set<Row>) returns (top: Row)
    requires rows != {}
    ensures top in rows && forall q | q in rows :: q.height <= top.height
    decreases |rows|
  {
    var r :| r in rows;
    if rows == {r} {
      top := r;
    } else {
      var other := SomeRowIsHighest(rows - {r});
      top := if r.height >= other.height then r else other;
    }
  }

  class WrbDB {
    var conn: Db

    constructor ()
      ensures conn == SetUp()
    {
      conn := SetUp();
    }

    /** The tip the next page load builds on. */
    method GetWrbChainTip() returns (tip: Tip)
      ensures IsTip(conn, tip)
    {
      if conn.rows == map[] {
        return BOOT;
      }
      ghost var top := SomeRowIsFirst(conn.rows.Keys);
      var r :| r in conn.rows.Keys && forall q | q in conn.rows.Keys :: NoLater(r, q);
      return r.tip;
    }

    /** Opens a transaction on top of `current`; none when its height is missing, or 0 without it
        being the genesis or boot tip. */
    method Begin(current: Tip, next: Tip) returns (s: Option<WritableWrbStore>)
      ensures s.Some? ==>
                && fresh(s.value) && fresh(s.value.writeBuf) && s.value.Idle() && s.value.db == this
                && Begins(conn, current, next, s.value.View())
      ensures s.None? ==> current != BOOT
      ensures s.None? ==>
                (forall h: nat :: !HasHeight(conn, current, h)) || (current != GENESIS && HasHeight(conn, current, 0))
    {
      var tipHeight := 0;
      if current != BOOT {
        if r :| r in conn.rows.Keys && r.tip == current {
          assert HasHeight(conn, current, r.height);
          if current != GENESIS && r.height == 0 {
            return None;
          }
          var q :| q in conn.rows.Keys && q.tip == current && q.height <= r.height;
          assert HasHeight(conn, current, q.height);
          assert TiplessHeight(conn, current, r.height);
          tipHeight := q.height + 1;
        } else {
          return None;
        }
      } else {
        assert TiplessHeight(conn, current, 0);
      }
      var store := new WritableWrbStore(this, conn, current, tipHeight, next);
      return Some(store);
    }

    /** Starts the next page load. */
    method BeginPageLoad() returns (s: Option<WritableWrbStore>)
      ensures s.Some? ==>
                && fresh(s.value) && fresh(s.value.writeBuf) && s.value.Idle() && s.value.db == this
                && LoadBegins(conn, s.value.View())
      ensures s.None? ==>
                exists tip :: IsTip(conn, tip) &&
                  ((forall h: nat :: !HasHeight(conn, tip, h)) || (tip != GENESIS && HasHeight(conn, tip, 0)))
    {
      var tip := GetWrbChainTip();
      if r :| r in conn.rows.Keys && r.tip == tip {
        assert HasHeight(conn, tip, r.height);
        s := Begin(tip, MakeTip(r.height + 1));
      } else {
        return None;
      }
    }
  }

  /** The height at which a commit drains what is still buffered. */
  function DrainHeight(s: Session, h: nat): nat
    requires h > 0
  {
    if Target(s) == BOOT then h - 1 else h
  }

  /** The table once a commit has drained what is still buffered. */
  function DrainedAt(hash: Value -> Hash, s: Session, items: Items, h: nat, final: Tip): Db
    requires h > 0
  {
    Inserts(hash, s.work, if Target(s) == BOOT then BOOT else final, DrainHeight(s, h), items)
  }

  ghost predicate CommitsWith(hash: Value -> Hash, s: Session, items: Items, h: nat, final: Tip)
    requires h > 0
  {
    (items == [] || DrainHeight(s, h) <= MAX_HEIGHT) && !Clashes(DrainedAt(hash, s, items, h, final), Target(s), final)
  }

  class WritableWrbStore {
    const db: WrbDB
    var work: Db
    var chainTip: Tip
    var tipHeight: nat
    const nextTip: Tip
    const writeBuf: WriteBuffer

    function View(): Session
      reads this
    {
      Session(work, chainTip, tipHeight, nextTip)
    }

    /** Nothing is waiting in the write buffer. */
    predicate Idle()
      reads this, writeBuf
    {
      writeBuf.Value() == EMPTY
    }

    constructor (db: WrbDB, work: Db, chainTip: Tip, tipHeight: nat, nextTip: Tip)
      ensures this.db == db && View() == Session(work, chainTip, tipHeight, nextTip)
      ensures fresh(writeBuf) && Idle()
    {
      this.db, this.work, this.chainTip, this.tipHeight, this.nextTip := db, work, chainTip, tipHeight, nextTip;
      writeBuf := new WriteBuffer();
    }

    /** Buffers the items and drains the buffer at once. */
    method PutAllData(hash: Value -> Hash, items: Items) returns (ok: bool)
      requires Ideal(hash) && Idle()
      modifies this`work, writeBuf
      ensures ok ==> Idle() && Puts(hash, old(View()), items, View())
      ensures !ok ==> View() == old(View()) && items != []
      ensures !ok ==> exists h: nat :: NextHeight(work, chainTip, h) && h > MAX_HEIGHT
    {
      BufferAll(hash, items);
      var out, h;
      ok, out, h := writeBuf.Dump(hash, items, work, chainTip, nextTip);
      work := out;
    }

    method BufferAll(hash: Value -> Hash, items: Items)
      requires Idle()
      modifies writeBuf
      ensures writeBuf.Value() == BufferPuts(hash, items)
    {
      for i := 0 to |items|
        invariant writeBuf.Value() == BufferPuts(hash, items[..i])
      {
        assert items[..i + 1][..i] == items[..i];
        writeBuf.Put(hash, items[i].0, items[i].1);
      }
      assert items[..|items|] == items;
    }

    /** Reads the buffer first and then the table; an index past the buffer's end is a panic. */
    method GetData(key: Key) returns (panics: bool, v: Option<Value>)
      ensures panics <==> BufferGet(writeBuf.Value(), key) == OutOfRange
      ensures BufferGet(writeBuf.Value(), key).Found? ==> v == Some(BufferGet(writeBuf.Value(), key).value)
      ensures BufferGet(writeBuf.Value(), key) == Absent ==> Reads(work, tipHeight, key, v)
      ensures Idle() ==> !panics && Reads(work, tipHeight, key, v)
    {
      var pending := writeBuf.Get(key);
      match pending
      case Found(value) => return false, Some(value);
      case OutOfRange => return true, None;
      case Absent =>
      var rows := set r | r in work.rows.Keys && r.key == key && r.height <= tipHeight;
      if rows == {} {
        assert forall r | r in work.rows && r.key == key && r.height <= tipHeight :: r in rows;
        return false, None;
      }
      ghost var top := SomeRowIsHighest(rows);
      var r :| r in rows && forall q | q in rows :: q.height <= r.height;
      assert forall q | q in work.rows && q.key == key && q.height <= tipHeight :: q in rows;
      assert IsLatest(work, tipHeight, key, r);
      return false, SideGet(work, work.rows[r]);
    }

    /** Drains what is still buffered, moves the transaction's rows to `final` and makes them permanent, or
        changes nothing.  Nothing is buffered in any reachable state, and then only a clash can fail. */
    method CommitTo(hash: Value -> Hash, ghost items: Items, final: Tip) returns (ok: bool, ghost h: nat)
      requires Ideal(hash) && writeBuf.Value() == BufferPuts(hash, items)
      modifies this`work, db, writeBuf
      ensures h > 0 && NextHeight(old(work), Target(old(View())), h)
      ensures ok == CommitsWith(hash, old(View()), items, h, final)
      ensures db.conn == if ok then Renamed(DrainedAt(hash, old(View()), items, h, final), Target(old(View())), final)
                         else old(db.conn)
      ensures items == [] ==> ok == !Clashes(old(work), Target(old(View())), final)
      ensures items == [] ==> db.conn == KvStore.Commit(old(db.conn), old(View()), final)
    {
      var target := if chainTip == BOOT then chainTip else nextTip;
      ghost var before := View();
      var out, height;
      ok, out, height := writeBuf.Dump(hash, items, work, target, final);
      h := height;
      if !ok {
        return;
      }
      assert out == DrainedAt(hash, before, items, h, final);
      work := out;
      if target != final && exists r | r in work.rows.Keys :: r.tip == target && r.(tip := final) in work.rows {
        ok := false;
        return;
      }
      db.conn := Renamed(work, target, final);
    }

    method Commit(hash: Value -> Hash) returns (ok: bool)
      requires Ideal(hash) && Idle()
      modifies this`work, db, writeBuf
      ensures ok == !Clashes(old(work), Target(old(View())), nextTip)
      ensures db.conn == KvStore.Commit(old(db.conn), old(View()), nextTip)
    {
      var committed, _ := CommitTo(hash, [], nextTip);
      return committed;
    }

    /** Moves to another block this transaction can see. */
    method SetBlockHash(tip: Tip) returns (prior: Option<Tip>)
      requires tip == BOOT || tip == GENESIS || !HasHeight(work, tip, 0)
      modifies this`chainTip, this`tipHeight
      ensures prior.Some? ==> prior.value == old(chainTip) && Switches(old(View()), tip, View())
      ensures prior.None? <==> forall h: nat | h <= old(tipHeight) :: !HasHeight(work, tip, h)
      ensures prior.None? ==> View() == old(View())
    {
      if q :| q in work.rows.Keys && q.tip == tip && q.height <= tipHeight {
        assert HasHeight(work, tip, q.height);
        prior := Some(chainTip);
        chainTip := tip;
        var r :| r in work.rows.Keys && r.tip == tip;
        assert HasHeight(work, tip, r.height);
        tipHeight := if tip == BOOT then 0 else r.height;
      } else {
        return None;
      }
    }
  }
}
