/** Sequences of commands against one keyspace, as a client would send them,
    and what the handlers' contracts say the replies must be. */
module Scenarios {
  import opened Resp
  import opened Keyspace
  import Storage

  /** After `SET k v`, `GET k` answers `v`. */
  method SetThenGet(db: SharedStorage, k: Bytes, v: Bytes) returns (setReply: RespType, getReply: RespType)
    requires !db.poisoned
    modifies db
    ensures setReply == String(Ascii("OK")) && getReply == BulkString(v)
    ensures db.store == old(db.store)[k := Storage.String(v)]
  {
    setReply := db.Set([BulkString(k), BulkString(v)]);
    getReply := db.Get([BulkString(k)]);
  }

  /** SET replaces a hash, after which the hash commands refuse the key and
      GET sees the string. */
  method SetReplacesHash(db: SharedStorage, k: Bytes, f: Bytes, v: Bytes, w: Bytes)
    returns (all: RespType, got: RespType)
    requires !db.poisoned && k !in db.store
    modifies db
    ensures all == ErrorReply(WRONG_TYPE) && got == BulkString(w)
  {
    var _ := db.HSet([BulkString(k), BulkString(f), BulkString(v)]);
    var _ := db.Set([BulkString(k), BulkString(w)]);
    all := db.HGetAll([BulkString(k)]);
    got := db.Get([BulkString(k)]);
  }

  /** HSET on a key that holds a string is refused and changes nothing. */
  method HSetOnString(db: SharedStorage, k: Bytes, v: Bytes, f: Bytes, x: Bytes) returns (reply: RespType)
    requires !db.poisoned
    modifies db
    ensures reply == ErrorReply(WRONG_TYPE)
    ensures db.store == old(db.store)[k := Storage.String(v)]
  {
    var _ := db.Set([BulkString(k), BulkString(v)]);
    reply := db.HSet([BulkString(k), BulkString(f), BulkString(x)]);
  }

  /** HGET of a field the hash does not have is answered with WRONGTYPE,
      not with `Null`. */
  method HGetMissingField(db: SharedStorage, k: Bytes, f: Bytes, v: Bytes, g: Bytes) returns (reply: RespType)
    requires !db.poisoned && k !in db.store && g != f
    modifies db
    ensures reply == ErrorReply(WRONG_TYPE)
  {
    var _ := db.HSet([BulkString(k), BulkString(f), BulkString(v)]);
    assert Pairs([BulkString(f), BulkString(v)]) == [(f, v)] by {
      assert [BulkString(f), BulkString(v)][2..] == [];
    }
    reply := db.HGet([BulkString(k), BulkString(g)]);
  }

  /** `HSET k f` with no value applies no pair but still leaves an (empty)
      hash under a key that was missing. */
  method HSetWithoutValue(db: SharedStorage, k: Bytes, f: Bytes) returns (reply: RespType)
    requires !db.poisoned && k !in db.store
    modifies db
    ensures reply == Integer(0)
    ensures k in db.store && db.store[k] == Storage.HashMap(map[])
  {
    reply := db.HSet([BulkString(k), BulkString(f)]);
  }

  /** Deleting the last field of a hash removes its key. */
  method HDelLastField(db: SharedStorage, k: Bytes, f: Bytes, v: Bytes) returns (reply: RespType)
    requires !db.poisoned && k !in db.store
    modifies db
    ensures reply == Integer(1)
    ensures db.store == old(db.store)
  {
    var _ := db.HSet([BulkString(k), BulkString(f), BulkString(v)]);
    assert Pairs([BulkString(f), BulkString(v)]) == [(f, v)] by {
      assert [BulkString(f), BulkString(v)][2..] == [];
    }
    var fields := [BulkString(f)];
    assert LeadingBulk(fields) == 1 by {
      assert fields[1..] == [];
    }
    assert BulkKeys(fields) == {f} by {
      assert fields[..0] == [];
    }
    assert [BulkString(k), BulkString(f)][1..][..1] == fields;
    assert map[f := v].Keys * {f} == {f};
    reply := db.HDel([BulkString(k), BulkString(f)]);
  }

  /** DEL of the same key twice counts it once. */
  method DelTwice(db: SharedStorage, k: Bytes, v: Bytes) returns (reply: RespType)
    requires !db.poisoned
    modifies db
    ensures reply == Integer(1)
    ensures k !in db.store
  {
    var _ := db.Set([BulkString(k), BulkString(v)]);
    var args := [BulkString(k), BulkString(k)];
    assert BulkKeys(args) == {k} by {
      var once := [BulkString(k)];
      assert once[..0] == [];
      assert BulkKeys(once) == {k};
      assert args[..1] == once;
    }
    assert db.store.Keys * {k} == {k};
    reply := db.Del(args);
  }

  /** HGETALL of a one-field hash lists that field and its value. */
  method HGetAllOneField(db: SharedStorage, k: Bytes, f: Bytes, v: Bytes) returns (reply: RespType)
    requires !db.poisoned && k !in db.store
    modifies db
    ensures reply == Array([BulkString(f), BulkString(v)])
  {
    var _ := db.HSet([BulkString(k), BulkString(f), BulkString(v)]);
    assert Pairs([BulkString(f), BulkString(v)]) == [(f, v)] by {
      assert [BulkString(f), BulkString(v)][2..] == [];
    }
    reply := db.HGetAll([BulkString(k)]);
    ghost var keys :| IsEnumeration(keys, map[f := v]) && reply == Array(Flatten(map[f := v], keys));
    assert keys == [f] by {
      assert |keys| == 1 && keys[0] in map[f := v];
    }
    assert keys[..0] == [];
  }
}
