/** The keyspace shared by the command handlers and the handlers that read and
    write it: `set`, `get`, `del` (src/commands/string_op.rs) and `hset`,
    `hget`, `hgetall`, `hdel` (src/commands/set_op.rs).

    Each handler receives the command's arguments (the request array without
    the command name) and returns the reply value. The `RwLock` around the map
    is represented by its poison flag alone. Each handler checks its
    arguments before it takes the lock, so bad arguments get their argument
    error even when the lock is poisoned; a handler whose arguments pass its
    checks replies to a poisoned lock with a fixed system error and leaves
    the map as it was. */
module Keyspace {
  import opened Resp
  import Storage

  type Entry = Storage.StorageType

  function ErrorReply(msg: string): RespType {
    Error(Ascii(msg))
  }

  const WRONG_TYPE := "WRONGTYPE operation against a key holding non-hashmap"
  const INSERT_FAILED := "ERR system error while inserting data"
  const GET_FAILED := "ERR system error while getting data"
  const DELETE_FAILED := "ERR system error while deleting data"

  /** A first argument that is a Bulk string. */
  predicate HasKey(args: seq<RespType>) {
    |args| > 0 && args[0].BulkString?
  }

  // ---------------------------------------------------------------------------
  // Removing a set of names from a map

  /** The payloads of the Bulk strings among `args`. */
  function BulkKeys(args: seq<RespType>): set<Bytes> {
    if args == [] then {}
    else
      var a := args[|args| - 1];
      BulkKeys(args[..|args| - 1]) + (if a.BulkString? then {a.s} else {})
  }

  /** The name of every Bulk argument is in `BulkKeys`, and nothing else is. */
  lemma {:induction false} BulkKeysMembers(args: seq<RespType>, k: Bytes)
    ensures k in BulkKeys(args) <==> exists i :: 0 <= i < |args| && args[i] == BulkString(k)
  {
    if args != [] {
      var init := args[..|args| - 1];
      BulkKeysMembers(init, k);
      if exists i :: 0 <= i < |args| && args[i] == BulkString(k) {
        var i :| 0 <= i < |args| && args[i] == BulkString(k);
        if i < |init| {
          assert init[i] == BulkString(k);
        }
      }
      if exists i :: 0 <= i < |init| && init[i] == BulkString(k) {
        var i :| 0 <= i < |init| && init[i] == BulkString(k);
        assert args[i] == BulkString(k);
      }
    }
  }

  /** `m` after removing, in order, the name of each Bulk string in `args`. */
  function RemoveBulk<T>(m: map<Bytes, T>, args: seq<RespType>): map<Bytes, T> {
    if args == [] then m
    else
      var a := args[|args| - 1];
      var before := RemoveBulk(m, args[..|args| - 1]);
      if a.BulkString? then before - {a.s} else before
  }

  lemma {:induction false} RemoveBulkStep<T>(m: map<Bytes, T>, args: seq<RespType>, i: nat)
    requires i < |args|
    ensures RemoveBulk(m, args[..i + 1]) ==
      (if args[i].BulkString? then RemoveBulk(m, args[..i]) - {args[i].s} else RemoveBulk(m, args[..i]))
  {
    assert args[..i + 1][..i] == args[..i];
  }

  /** Removing the names one at a time removes exactly the named entries. */
  lemma {:induction false} RemoveBulkAll<T>(m: map<Bytes, T>, args: seq<RespType>)
    ensures RemoveBulk(m, args) == m - BulkKeys(args)
  {
    if args != [] {
      var init := args[..|args| - 1];
      var a := args[|args| - 1];
      RemoveBulkAll(m, init);
      if a.BulkString? {
        RemoveName(m, BulkKeys(init), a.s);
      } else {
        assert BulkKeys(args) == BulkKeys(init);
      }
    }
  }

  lemma {:induction false} RemoveName<T>(m: map<Bytes, T>, gone: set<Bytes>, k: Bytes)
    ensures (m - gone) - {k} == m - (gone + {k})
  {
  }

  /** Removing one name takes one entry away exactly when the name is present. */
  lemma {:induction false} RemoveOneSize<T>(m: map<Bytes, T>, k: Bytes)
    ensures |m - {k}| == if k in m then |m| - 1 else |m|
  {
    var left := m - {k};
    if k in m {
      assert m.Keys == left.Keys + {k};
    } else {
      assert left.Keys == m.Keys;
    }
  }

  /** The entries removed are those whose name is in `gone`. */
  lemma {:induction false} RemovedCount<T>(m: map<Bytes, T>, gone: set<Bytes>)
    ensures |m.Keys * gone| == |m| - |m - gone|
  {
    var left := m - gone;
    assert m.Keys == left.Keys + m.Keys * gone;
    assert left.Keys * (m.Keys * gone) == {};
  }

  /** What DEL and HDEL compute: the map left after removing the names of
      the Bulk strings in `args`, and how many entries went. */
  lemma {:induction false} RemoveBulkMeaning<T>(m: map<Bytes, T>, args: seq<RespType>)
    ensures RemoveBulk(m, args) == m - BulkKeys(args)
    ensures |m| - |RemoveBulk(m, args)| == |m.Keys * BulkKeys(args)|
  {
    RemoveBulkAll(m, args);
    RemovedCount(m, BulkKeys(args));
  }

  // ---------------------------------------------------------------------------
  // HSET's field/value pairs and HDEL's field names

  /** The field/value pairs HSET applies: consecutive pairs of Bulk strings
      from the front of `rest`, up to the first incomplete or non-Bulk pair. */
  function Pairs(rest: seq<RespType>): (ps: seq<(Bytes, Bytes)>)
    ensures 2 * |ps| <= |rest|
    decreases |rest|
  {
    if |rest| >= 2 && rest[0].BulkString? && rest[1].BulkString? then
      [(rest[0].s, rest[1].s)] + Pairs(rest[2..])
    else []
  }

  /** Pair `l` is made of arguments `2 * l` and `2 * l + 1`. */
  lemma {:induction false} PairAt(rest: seq<RespType>, l: nat)
    requires l < |Pairs(rest)|
    ensures rest[2 * l] == BulkString(Pairs(rest)[l].0) && rest[2 * l + 1] == BulkString(Pairs(rest)[l].1)
    decreases l
  {
    if l > 0 {
      PairAt(rest[2..], l - 1);
      assert rest[2 * l] == rest[2..][2 * (l - 1)] && rest[2 * l + 1] == rest[2..][2 * (l - 1) + 1];
    }
  }

  /** The pairs stop at the end of the arguments or at the first argument
      pair that is not two Bulk strings. */
  lemma {:induction false} PairsStop(rest: seq<RespType>)
    ensures var n := |Pairs(rest)|;
      2 * n + 1 < |rest| ==> !(rest[2 * n].BulkString? && rest[2 * n + 1].BulkString?)
    decreases |rest|
  {
    if |rest| >= 2 && rest[0].BulkString? && rest[1].BulkString? {
      PairsStop(rest[2..]);
      var n := |Pairs(rest)|;
      if 2 * n + 1 < |rest| {
        assert rest[2 * n] == rest[2..][2 * (n - 1)] && rest[2 * n + 1] == rest[2..][2 * (n - 1) + 1];
      }
    }
  }

  /** `h` after inserting the pairs `ps` in order. */
  function Apply(h: map<Bytes, Bytes>, ps: seq<(Bytes, Bytes)>): map<Bytes, Bytes>
    decreases |ps|
  {
    if ps == [] then h else Apply(h[ps[0].0 := ps[0].1], ps[1..])
  }

  /** A field that no pair names keeps its entry (or its absence). */
  lemma {:induction false} ApplyKeeps(h: map<Bytes, Bytes>, ps: seq<(Bytes, Bytes)>, f: Bytes)
    requires forall l :: 0 <= l < |ps| ==> ps[l].0 != f
    ensures f in Apply(h, ps) <==> f in h
    ensures f in h ==> Apply(h, ps)[f] == h[f]
    decreases |ps|
  {
    if ps != [] {
      assert ps[0].0 != f;
      ApplyKeeps(h[ps[0].0 := ps[0].1], ps[1..], f);
    }
  }

  /** A named field ends up with the value of the last pair that names it. */
  lemma {:induction false} ApplyLastWins(h: map<Bytes, Bytes>, ps: seq<(Bytes, Bytes)>, j: nat)
    requires j < |ps|
    requires forall l :: j < l < |ps| ==> ps[l].0 != ps[j].0
    ensures ps[j].0 in Apply(h, ps) && Apply(h, ps)[ps[j].0] == ps[j].1
    decreases |ps|
  {
    var h1 := h[ps[0].0 := ps[0].1];
    if j == 0 {
      ApplyKeeps(h1, ps[1..], ps[0].0);
    } else {
      ApplyLastWins(h1, ps[1..], j - 1);
    }
  }

  /** The number of Bulk strings at the front of `rest`. */
  function LeadingBulk(rest: seq<RespType>): (n: nat)
    ensures n <= |rest|
    ensures n < |rest| ==> !rest[n].BulkString?
    decreases |rest|
  {
    if rest != [] && rest[0].BulkString? then 1 + LeadingBulk(rest[1..]) else 0
  }

  /** Every argument before the leading count is a Bulk string. */
  lemma {:induction false} LeadingBulkAt(rest: seq<RespType>, j: nat)
    requires j < LeadingBulk(rest)
    ensures rest[j].BulkString?
    decreases j
  {
    if j > 0 {
      LeadingBulkAt(rest[1..], j - 1);
    }
  }

  /** The field names HDEL removes: those of the Bulk strings after the key,
      up to the first argument that is not one. */
  function DelFields(args: seq<RespType>): set<Bytes>
    requires |args| > 0
  {
    BulkKeys(args[1..][..LeadingBulk(args[1..])])
  }

  // ---------------------------------------------------------------------------
  // HGETALL's reply

  /** The replies for the fields `keys` of `h`: field, value, field, value, ... */
  function Flatten(h: map<Bytes, Bytes>, keys: seq<Bytes>): (r: seq<RespType>)
    requires forall i :: 0 <= i < |keys| ==> keys[i] in h
    ensures |r| == 2 * |keys|
  {
    if keys == [] then []
    else
      var k := keys[|keys| - 1];
      Flatten(h, keys[..|keys| - 1]) + [BulkString(k), BulkString(h[k])]
  }

  lemma {:induction false} FlattenLayout(h: map<Bytes, Bytes>, keys: seq<Bytes>)
    requires forall i :: 0 <= i < |keys| ==> keys[i] in h
    ensures forall i :: 0 <= i < |keys| ==>
      Flatten(h, keys)[2 * i] == BulkString(keys[i]) && Flatten(h, keys)[2 * i + 1] == BulkString(h[keys[i]])
  {
    if keys != [] {
      var init := keys[..|keys| - 1];
      FlattenLayout(h, init);
      forall i | 0 <= i < |keys|
        ensures Flatten(h, keys)[2 * i] == BulkString(keys[i]) && Flatten(h, keys)[2 * i + 1] == BulkString(h[keys[i]])
      {
        if i < |init| {
          assert keys[i] == init[i];
        }
      }
    }
  }

  /** `keys` lists every field of `h` exactly once. */
  predicate IsEnumeration(keys: seq<Bytes>, h: map<Bytes, Bytes>) {
    && |keys| == |h|
    && (forall i :: 0 <= i < |keys| ==> keys[i] in h)
    && (forall k :: k in h ==> k in keys)
    && (forall i, j :: 0 <= i < j < |keys| ==> keys[i] != keys[j])
  }

  /** HDEL's `while let` loop over its copy of the hash: the fields named by
      the Bulk strings at the front of `fields` are removed, and the reply
      counts those that were present. */
  method RemoveLeadingFields(hash: map<Bytes, Bytes>, fields: seq<RespType>) returns (left: map<Bytes, Bytes>, delCount: nat)
    ensures left == hash - BulkKeys(fields[..LeadingBulk(fields)])
    ensures delCount == |hash.Keys * BulkKeys(fields[..LeadingBulk(fields)])|
  {
    left := hash;
    delCount := 0;
    var i := 0;
    while i < |fields| && fields[i].BulkString?
      invariant 0 <= i <= LeadingBulk(fields)
      invariant left == RemoveBulk(hash, fields[..i])
      invariant delCount + |left| == |hash|
    {
      var keyToDelete := fields[i].s;
      RemoveBulkStep(hash, fields, i);
      var present := keyToDelete in left;
      left := left - {keyToDelete};
      if present {
        delCount := delCount + 1;
      }
      i := i + 1;
    }
    if i < LeadingBulk(fields) {
      LeadingBulkAt(fields, i);
    }
    RemoveBulkMeaning(hash, fields[..i]);
  }

  // ---------------------------------------------------------------------------
  // The keyspace

  /** `Arc<RwLock<HashMap<String, StorageType>>>`: the map, and whether its
      lock is poisoned (a holder panicked while holding it). */
  class SharedStorage {
    var store: map<Bytes, Entry>
    var poisoned: bool

    constructor(poisoned: bool)
      ensures store == map[] && this.poisoned == poisoned
    {
      store := map[];
      this.poisoned := poisoned;
    }

    /** `SET key value`: the key now holds the string, whatever it held before. */
    method Set(args: seq<RespType>) returns (r: RespType)
      modifies this`store
      ensures !HasKey(args) ==> r == ErrorReply("ARGERR no key are given for SET command") && store == old(store)
      ensures HasKey(args) && !(|args| > 1 && args[1].BulkString?) ==>
        r == ErrorReply("ARGERR no value are given for SET command") && store == old(store)
      ensures HasKey(args) && |args| > 1 && args[1].BulkString? && poisoned ==>
        r == ErrorReply(INSERT_FAILED) && store == old(store)
      ensures HasKey(args) && |args| > 1 && args[1].BulkString? && !poisoned ==>
        r == String(Ascii("OK")) && store == old(store)[args[0].s := Storage.String(args[1].s)]
    {
      if !HasKey(args) {
        return ErrorReply("ARGERR no key are given for SET command");
      }
      var key := args[0].s;
      if !(|args| > 1 && args[1].BulkString?) {
        return ErrorReply("ARGERR no value are given for SET command");
      }
      var value := args[1].s;
      if poisoned {
        return ErrorReply(INSERT_FAILED);
      }
      store := store[key := Storage.String(value)];
      r := String(Ascii("OK"));
    }

    /** `GET key`: the string under the key, or `Null` for a missing key or a hash. */
    method Get(args: seq<RespType>) returns (r: RespType)
      ensures !HasKey(args) ==> r == ErrorReply("ARGERR no key are given for GET command")
      ensures HasKey(args) && poisoned ==> r == ErrorReply(GET_FAILED)
      ensures HasKey(args) && !poisoned ==>
        var key := args[0].s;
        (r.BulkString? <==> key in store && store[key].String?)
        && (r.BulkString? ==> r.s == store[key].value)
        && (!r.BulkString? ==> r == Null)
    {
      if !HasKey(args) {
        return ErrorReply("ARGERR no key are given for GET command");
      }
      var key := args[0].s;
      if poisoned {
        return ErrorReply(GET_FAILED);
      }
      if key in store && store[key].String? {
        r := BulkString(store[key].value);
      } else {
        r := Null;
      }
    }

    /** `DEL key [key ...]`: every key named by a Bulk argument is removed,
        and the reply counts the distinct named keys that were present. */
    method Del(args: seq<RespType>) returns (r: RespType)
      modifies this`store
      ensures args == [] ==> r == ErrorReply("ARGERR no keys given for DEL command") && store == old(store)
      ensures args != [] && poisoned ==> r == ErrorReply(DELETE_FAILED) && store == old(store)
      ensures args != [] && !poisoned ==>
        && store == old(store) - BulkKeys(args)
        && r == Integer(|old(store).Keys * BulkKeys(args)|)
    {
      if |args| < 1 {
        return ErrorReply("ARGERR no keys given for DEL command");
      }
      if poisoned {
        return ErrorReply(DELETE_FAILED);
      }
      ghost var start := store;
      var deletedCount := 0;
      var i := 0;
      while i < |args|
        invariant 0 <= i <= |args|
        invariant store == RemoveBulk(start, args[..i])
        invariant deletedCount + |store| == |start|
      {
        RemoveBulkStep(start, args, i);
        if args[i].BulkString? {
          var key := args[i].s;
          RemoveOneSize(store, key);
          var present := key in store;
          store := store - {key};
          if present {
            deletedCount := deletedCount + 1;
          }
        }
        i := i + 1;
      }
      assert args[..i] == args;
      RemoveBulkMeaning(start, args);
      r := Integer(deletedCount);
    }

    /** `HSET key field value [field value ...]`: the pairs are inserted in
        order into the key's hash (a new one when the key is missing), and the
        reply counts them; a key holding a string is refused. */
    method HSet(args: seq<RespType>) returns (r: RespType)
      modifies this`store
      ensures !HasKey(args) ==> r == ErrorReply("ARGERR key are required for HSET") && store == old(store)
      ensures HasKey(args) && |args| == 1 ==>
        r == ErrorReply("ARGERR at least one field are required for HSET") && store == old(store)
      ensures HasKey(args) && |args| > 1 && poisoned ==> r == ErrorReply(INSERT_FAILED) && store == old(store)
      ensures HasKey(args) && |args| > 1 && !poisoned ==>
        var key := args[0].s;
        if key in old(store) && old(store)[key].String? then
          r == ErrorReply(WRONG_TYPE) && store == old(store)
        else
          var h := if key in old(store) then old(store)[key].fields else map[];
          && r == Integer(|Pairs(args[1..])|)
          && store == old(store)[key := Storage.HashMap(Apply(h, Pairs(args[1..])))]
    {
      if !HasKey(args) {
        return ErrorReply("ARGERR key are required for HSET");
      }
      var key := args[0].s;
      if |args| == 1 {
        return ErrorReply("ARGERR at least one field are required for HSET");
      }
      if poisoned {
        return ErrorReply(INSERT_FAILED);
      }
      var existingHash: map<Bytes, Bytes>;
      if key in store && store[key].HashMap? {
        existingHash := store[key].fields;
      } else if key in store {
        return ErrorReply(WRONG_TYPE);
      } else {
        existingHash := map[];
      }
      ghost var start := existingHash;
      var insertCount := 0;
      var i := 1;
      while i + 1 < |args| && args[i].BulkString? && args[i + 1].BulkString?
        invariant 1 <= i <= |args|
        invariant Apply(existingHash, Pairs(args[i..])) == Apply(start, Pairs(args[1..]))
        invariant insertCount + |Pairs(args[i..])| == |Pairs(args[1..])|
        decreases |args| - i
      {
        assert args[i..][2..] == args[i + 2..];
        existingHash := existingHash[args[i].s := args[i + 1].s];
        insertCount := insertCount + 1;
        i := i + 2;
      }
      store := store[key := Storage.HashMap(existingHash)];
      r := Integer(insertCount);
    }

    /** `HGET key field`: the field's value when the key holds a hash with
        that field; a hash without it is refused with WRONGTYPE, and a missing
        key or a string gives `Null`. */
    method HGet(args: seq<RespType>) returns (r: RespType)
      ensures !(HasKey(args) && |args| > 1 && args[1].BulkString?) ==>
        r == ErrorReply("ARGERR key and field is required for HGET")
      ensures HasKey(args) && |args| > 1 && args[1].BulkString? && poisoned ==> r == ErrorReply(GET_FAILED)
      ensures HasKey(args) && |args| > 1 && args[1].BulkString? && !poisoned ==>
        var key := args[0].s;
        var field := args[1].s;
        if key in store && store[key].HashMap? then
          if field in store[key].fields then r == BulkString(store[key].fields[field])
          else r == ErrorReply(WRONG_TYPE)
        else r == Null
    {
      if !(HasKey(args) && |args| > 1 && args[1].BulkString?) {
        return ErrorReply("ARGERR key and field is required for HGET");
      }
      var key := args[0].s;
      var fieldKey := args[1].s;
      if poisoned {
        return ErrorReply(GET_FAILED);
      }
      if key in store && store[key].HashMap? {
        var existingHash := store[key].fields;
        if fieldKey in existingHash {
          r := BulkString(existingHash[fieldKey]);
        } else {
          // the entry exists here, so the `Null` alternative is never taken
          r := ErrorReply(WRONG_TYPE);
        }
      } else {
        r := Null;
      }
    }

    /** `HGETALL key`: every field and its value, once each, in the hash's
        iteration order (which is not specified). */
    method HGetAll(args: seq<RespType>) returns (r: RespType)
      ensures !HasKey(args) ==> r == ErrorReply("ARGERR key are required for HGETALL")
      ensures HasKey(args) && poisoned ==> r == ErrorReply(GET_FAILED)
      ensures HasKey(args) && !poisoned ==>
        var key := args[0].s;
        if key !in store then r == Array([])
        else if store[key].String? then r == ErrorReply(WRONG_TYPE)
        else exists keys :: IsEnumeration(keys, store[key].fields) && r == Array(Flatten(store[key].fields, keys))
    {
      if !HasKey(args) {
        return ErrorReply("ARGERR key are required for HGETALL");
      }
      var key := args[0].s;
      var returnValues: seq<RespType> := [];
      if poisoned {
        return ErrorReply(GET_FAILED);
      }
      if key in store && store[key].HashMap? {
        var existingHash := store[key].fields;
        var remaining := existingHash.Keys;
        ghost var order: seq<Bytes> := [];
        while remaining != {}
          invariant remaining <= existingHash.Keys
          invariant forall i :: 0 <= i < |order| ==> order[i] in existingHash && order[i] !in remaining
          invariant forall i, j :: 0 <= i < j < |order| ==> order[i] != order[j]
          invariant forall k :: k in existingHash ==> k in remaining || k in order
          invariant |order| + |remaining| == |existingHash|
          invariant returnValues == Flatten(existingHash, order)
          decreases |remaining|
        {
          var field :| field in remaining;
          returnValues := returnValues + [BulkString(field), BulkString(existingHash[field])];
          remaining := remaining - {field};
          ghost var listed := order;
          order := order + [field];
          assert order[..|order| - 1] == listed;
        }
        assert IsEnumeration(order, existingHash);
        r := Array(returnValues);
      } else if key in store {
        r := ErrorReply(WRONG_TYPE);
      } else {
        r := Array(returnValues);
      }
    }

    /** `HDEL key field [field ...]`: the named fields are removed from the
        key's hash and counted; a hash left empty takes its key with it. */
    method HDel(args: seq<RespType>) returns (r: RespType)
      modifies this`store
      ensures !HasKey(args) ==> r == ErrorReply("ARGERR key are required for HDEL") && store == old(store)
      ensures HasKey(args) && |args| == 1 ==>
        r == ErrorReply("ARGERR at least one field are required for HDEL") && store == old(store)
      ensures HasKey(args) && |args| > 1 && poisoned ==> r == ErrorReply(INSERT_FAILED) && store == old(store)
      ensures HasKey(args) && |args| > 1 && !poisoned ==>
        var key := args[0].s;
        if key !in old(store) then r == Integer(0) && store == old(store)
        else if old(store)[key].String? then r == ErrorReply(WRONG_TYPE) && store == old(store)
        else
          var h := old(store)[key].fields;
          var left := h - DelFields(args);
          && r == Integer(|h.Keys * DelFields(args)|)
          && store == (if left == map[] then old(store) - {key} else old(store)[key := Storage.HashMap(left)])
    {
      if !HasKey(args) {
        return ErrorReply("ARGERR key are required for HDEL");
      }
      var key := args[0].s;
      if |args| == 1 {
        return ErrorReply("ARGERR at least one field are required for HDEL");
      }
      if poisoned {
        return ErrorReply(INSERT_FAILED);
      }
      var existingHash: map<Bytes, Bytes>;
      if key in store && store[key].HashMap? {
        existingHash := store[key].fields;
      } else if key in store {
        return ErrorReply(WRONG_TYPE);
      } else {
        return Integer(0);
      }
      var delCount;
      existingHash, delCount := RemoveLeadingFields(existingHash, args[1..]);
      if existingHash == map[] {
        store := store - {key};
      } else {
        store := store[key := Storage.HashMap(existingHash)];
      }
      r := Integer(delCount);
    }
  }
}
