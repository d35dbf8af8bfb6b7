/** JSON values as Python's json module reads them: objects keep the order of their members. */
module JsonValues {
  import opened Text

  datatype Member = Member(key: string, value: Json)

  type Dict = seq<Member>

  datatype Json =
    | Null
    | Bool(b: bool)
    | Int(i: int)
    | Real(r: real)
    | Str(s: string)
    | List(items: seq<Json>)
    | Obj(members: Dict)
  {
    /** bool(value) */
    predicate Truthy() {
      match this
      case Null => false
      case Bool(b) => b
      case Int(i) => i != 0
      case Real(r) => r != 0.0
      case Str(s) => s != ""
      case List(items) => items != []
      case Obj(members) => members != []
    }
  }

  /** str(value), given how Python prints values that are not strings. */
  function PyStr(repr: Json -> string, v: Json): string {
    if v.Str? then v.s else repr(v)
  }

  function Get(d: Dict, key: string): Option<Json> {
    if d == [] then None else if d[0].key == key then Some(d[0].value) else Get(d[1..], key)
  }

  /** d[key] = value: in place if the key is there, at the end if not. */
  function Put(d: Dict, key: string, value: Json): Dict {
    if d == [] then [Member(key, value)]
    else if d[0].key == key then [Member(key, value)] + d[1..]
    else [d[0]] + Put(d[1..], key, value)
  }

  /** The members whose keys are in `keys`, in their order. */
  function Keep(d: Dict, keys: set<string>): Dict {
    if d == [] then [] else (if d[0].key in keys then [d[0]] else []) + Keep(d[1..], keys)
  }

  /** d.pop(key, None) */
  function Pop(d: Dict, key: string): Dict {
    if d == [] then [] else (if d[0].key == key then [] else [d[0]]) + Pop(d[1..], key)
  }

  function KeysOf(d: Dict): set<string> {
    set m | m in d :: m.key
  }

  lemma {:induction false} GetPut(d: Dict, key: string, value: Json, other: string)
    ensures Get(Put(d, key, value), other) == if other == key then Some(value) else Get(d, other)
  {
    if d != [] && d[0].key != key {
      GetPut(d[1..], key, value, other);
      assert Put(d, key, value)[1..] == Put(d[1..], key, value);
    } else if d != [] {
      assert Put(d, key, value)[1..] == d[1..];
    }
  }

  lemma {:induction false} PutSame(d: Dict, key: string, value: Json)
    requires Get(d, key) == Some(value)
    ensures Put(d, key, value) == d
  {
    if d[0].key != key {
      PutSame(d[1..], key, value);
    }
  }

  lemma {:induction false} PutPut(d: Dict, key: string, value: Json, value': Json)
    ensures Put(Put(d, key, value), key, value') == Put(d, key, value')
  {
    if d != [] && d[0].key != key {
      PutPut(d[1..], key, value, value');
      assert Put(d, key, value)[1..] == Put(d[1..], key, value);
    } else if d != [] {
      assert Put(d, key, value)[1..] == d[1..];
    }
  }

  lemma {:induction false} KeepPut(d: Dict, key: string, value: Json, keys: set<string>)
    requires key in keys
    ensures Keep(Put(d, key, value), keys) == Put(Keep(d, keys), key, value)
  {
    if d != [] && d[0].key != key {
      KeepPut(d[1..], key, value, keys);
      assert Put(d, key, value)[1..] == Put(d[1..], key, value);
      if d[0].key in keys {
        assert Keep(d, keys)[1..] == Keep(d[1..], keys);
      } else {
        assert Keep(d, keys) == Keep(d[1..], keys);
        assert Keep(Put(d, key, value), keys) == Keep(Put(d[1..], key, value), keys);
      }
    } else if d != [] {
      assert Put(d, key, value)[1..] == d[1..];
      assert Keep(d, keys)[1..] == Keep(d[1..], keys);
    }
  }

  lemma {:induction false} KeepPop(d: Dict, key: string, keys: set<string>)
    requires key !in keys
    ensures Keep(Pop(d, key), keys) == Keep(d, keys)
  {
    if d == [] {
    } else {
      KeepPop(d[1..], key, keys);
      if d[0].key != key {
        assert Pop(d, key)[1..] == Pop(d[1..], key);
      } else {
        assert Pop(d, key) == Pop(d[1..], key);
      }
    }
  }

  lemma {:induction false} GetKeep(d: Dict, key: string, keys: set<string>)
    ensures Get(Keep(d, keys), key) == if key in keys then Get(d, key) else None
  {
    if d == [] {
    } else {
      GetKeep(d[1..], key, keys);
      if d[0].key in keys {
        assert Keep(d, keys)[1..] == Keep(d[1..], keys);
      } else {
        assert Keep(d, keys) == Keep(d[1..], keys);
      }
    }
  }

  lemma {:induction false} KeepKeeps(d: Dict, keys: set<string>)
    ensures forall m :: m in Keep(d, keys) ==> m in d && m.key in keys
    ensures (forall m :: m in d ==> m.key in keys) ==> Keep(d, keys) == d
  {
    if d == [] {
    } else {
      KeepKeeps(d[1..], keys);
    }
  }

  lemma {:induction false} PutMembers(d: Dict, key: string, value: Json)
    ensures forall m :: m in Put(d, key, value) ==> m in d || m == Member(key, value)
  {
    if d != [] && d[0].key != key {
      PutMembers(d[1..], key, value);
    }
  }

  lemma {:induction false} KeysOfPop(d: Dict, key: string)
    ensures KeysOf(Pop(d, key)) == KeysOf(d) - {key}
  {
    if d == [] {
    } else {
      KeysOfPop(d[1..], key);
      assert d == [d[0]] + d[1..];
      assert KeysOf(d) == {d[0].key} + KeysOf(d[1..]);
      if d[0].key != key {
        assert KeysOf(Pop(d, key)) == {d[0].key} + KeysOf(Pop(d[1..], key));
      } else {
        assert Pop(d, key) == Pop(d[1..], key);
      }
    }
  }

  lemma {:induction false} KeysOfPut(d: Dict, key: string, value: Json)
    ensures KeysOf(Put(d, key, value)) == KeysOf(d) + {key}
  {
    if d != [] && d[0].key != key {
      KeysOfPut(d[1..], key, value);
      assert d == [d[0]] + d[1..];
      assert KeysOf(d) == {d[0].key} + KeysOf(d[1..]);
      assert KeysOf(Put(d, key, value)) == {d[0].key} + KeysOf(Put(d[1..], key, value));
    } else if d != [] {
      assert d == [d[0]] + d[1..];
      assert KeysOf(d) == {d[0].key} + KeysOf(d[1..]);
      assert KeysOf(Put(d, key, value)) == {key} + KeysOf(d[1..]);
    }
  }
}
