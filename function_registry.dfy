/*
 * A registry of callables that share one signature, keyed by an identifier.
 *
 * The original template DynamicCaller<id_type, Ret(Args...)> keeps one map per
 * template instantiation in a function-local static variable; every
 * DynamicCaller object of that instantiation reads and writes the same map.
 * Here that map is an object of class Storage, and every DynamicCaller handle
 * holds a reference to one Storage object.
 *
 * The argument pack Args... is one type parameter A (a tuple when there are
 * several arguments) and the stored callable has the partial arrow type
 * A --> R, so a callee's own precondition is part of its value.
 */
module FunctionRegistry {

  /** The one failure the registry itself raises: the identifier is not registered. */
  datatype LookupError<Id> = NotFound(id: Id)

  /** Success value, or the lookup failure that the original throws as runtime_error. */
  datatype Result<T, Id> = Ok(value: T) | Err(error: LookupError<Id>)

  datatype Option<T> = None | Some(value: T)

  /** Fixed text that precedes the identifier in the lookup failure's message. */
  const MessagePrefix: string := "Lookup failed: no function "

  /** The message of the thrown runtime_error, for registries keyed by strings. */
  function Message(e: LookupError<string>): (m: string)
    ensures |m| == |MessagePrefix| + |e.id|
    ensures m[..|MessagePrefix|] == MessagePrefix && m[|MessagePrefix|..] == e.id
  {
    MessagePrefix + e.id
  }

  /** Recovers the identifier that a lookup failure's message reports. */
  function MessageId(m: string): (r: Option<string>)
    ensures r.Some? <==> |MessagePrefix| <= |m| && m[..|MessagePrefix|] == MessagePrefix
  {
    if |MessagePrefix| <= |m| && m[..|MessagePrefix|] == MessagePrefix
    then Some(m[|MessagePrefix|..])
    else None
  }

  /** The message names exactly the missing identifier: it can be read back. */
  lemma MessageRoundTrip(id: string)
    ensures MessageId(Message(NotFound(id))) == Some(id)
  {
  }

  /** Two failures with the same message are failures for the same identifier. */
  lemma MessageInjective(e1: LookupError<string>, e2: LookupError<string>)
    requires Message(e1) == Message(e2)
    ensures e1 == e2
  {
    MessageRoundTrip(e1.id);
    MessageRoundTrip(e2.id);
  }

  /*
   * Specification of the table operations on map values.
   */

  /** What _StorageGet answers for `id` against the table `t`: the stored callable, or NotFound. */
  function Lookup<Id, F>(t: map<Id, F>, id: Id): (r: Result<F, Id>)
    ensures r.Ok? <==> id in t
    ensures r.Ok? ==> r.value == t[id]
    ensures r.Err? ==> r.error == NotFound(id)
  {
    if id in t then Ok(t[id]) else Err(NotFound(id))
  }

  /** The callee registered for `id`, if any, may be applied to `args`. */
  ghost predicate CanCall<Id, A, R>(t: map<Id, A --> R>, id: Id, args: A)
  {
    id in t ==> t[id].requires(args)
  }

  /** What CallFunction answers: the callee's result on `args`, or NotFound. */
  function Apply<Id, A, R>(t: map<Id, A --> R>, id: Id, args: A): (r: Result<R, Id>)
    requires CanCall(t, id, args)
    ensures r.Ok? <==> id in t
    ensures r.Ok? ==> r.value == t[id](args)
    ensures r.Err? ==> r.error == NotFound(id)
  {
    if id in t then Ok(t[id](args)) else Err(NotFound(id))
  }

  /** Invoking is exactly looking up and then calling what was found, with the same failure. */
  lemma ApplyIsLookupThenCall<Id, A, R>(t: map<Id, A --> R>, id: Id, args: A)
    requires CanCall(t, id, args)
    ensures match Lookup(t, id)
            case Ok(f) => f.requires(args) && Apply(t, id, args) == Ok(f(args))
            case Err(e) => Apply(t, id, args) == Err(e)
  {
  }

  /** After storing `f` under `id`, looking `id` up succeeds with `f`. */
  lemma PutThenGet<Id, F>(t: map<Id, F>, f: F, id: Id)
    ensures Lookup(t[id := f], id) == Ok(f)
  {
  }

  /** Storing under an id that is already present replaces its callable: the last write wins. */
  lemma PutOverwrites<Id, F>(t: map<Id, F>, f: F, g: F, id: Id)
    ensures t[id := f][id := g] == t[id := g]
    ensures Lookup(t[id := f][id := g], id) == Ok(g)
  {
  }

  /** Storing under `id` leaves the answer for every other identifier unchanged. */
  lemma PutFrame<Id, F>(t: map<Id, F>, f: F, id: Id, other: Id)
    requires other != id
    ensures Lookup(t[id := f], other) == Lookup(t, other)
  {
  }

  /*
   * The table as the result of its history of stores. The static map starts
   * empty and nothing ever erases from it, so its value is always the replay
   * of every store made so far, in order.
   */

  /** Replays the stores `puts`, oldest first, on top of `t`. */
  function Replay<Id, F>(t: map<Id, F>, puts: seq<(Id, F)>): map<Id, F>
  {
    if puts == [] then t
    else
      var last := puts[|puts| - 1];
      Replay(t, puts[..|puts| - 1])[last.0 := last.1]
  }

  /** The identifiers stored by `puts`. */
  function PutIds<Id, F>(puts: seq<(Id, F)>): set<Id>
  {
    set i | 0 <= i < |puts| :: puts[i].0
  }

  /** The registered identifiers are the initial ones plus every identifier ever stored. */
  lemma {:induction false} ReplayKeys<Id, F>(t: map<Id, F>, puts: seq<(Id, F)>)
    ensures Replay(t, puts).Keys == t.Keys + PutIds(puts)
  {
    if puts != [] {
      var init := puts[..|puts| - 1];
      ReplayKeys(t, init);
      assert PutIds(puts) == PutIds(init) + {puts[|puts| - 1].0} by {
        forall k | k in PutIds(puts) ensures k in PutIds(init) + {puts[|puts| - 1].0} {
          var i :| 0 <= i < |puts| && puts[i].0 == k;
          if i < |puts| - 1 {
            assert init[i].0 == k;
          }
        }
        forall k | k in PutIds(init) ensures k in PutIds(puts) {
          var i :| 0 <= i < |init| && init[i].0 == k;
          assert puts[i].0 == k;
        }
      }
    }
  }

  /** Replaying `p` and then `q` is replaying `p + q`. */
  lemma {:induction false} ReplayAppend<Id, F>(t: map<Id, F>, p: seq<(Id, F)>, q: seq<(Id, F)>)
    ensures Replay(t, p + q) == Replay(Replay(t, p), q)
  {
    if q == [] {
      assert p + q == p;
    } else {
      var init := q[..|q| - 1];
      ReplayAppend(t, p, init);
      assert (p + q)[..|p + q| - 1] == p + init;
    }
  }

  /** Nothing is ever removed: later stores only add identifiers to the table. */
  lemma KeysOnlyGrow<Id, F>(t: map<Id, F>, p: seq<(Id, F)>, q: seq<(Id, F)>)
    ensures Replay(t, p).Keys <= Replay(t, p + q).Keys
  {
    ReplayAppend(t, p, q);
    ReplayKeys(Replay(t, p), q);
  }

  /** The callable registered for an identifier is the one of its latest store. */
  lemma {:induction false} ReplayLastWriteWins<Id, F>(t: map<Id, F>, puts: seq<(Id, F)>, i: nat)
    requires i < |puts|
    requires forall j :: i < j < |puts| ==> puts[j].0 != puts[i].0
    ensures puts[i].0 in Replay(t, puts) && Replay(t, puts)[puts[i].0] == puts[i].1
  {
    if i < |puts| - 1 {
      var init := puts[..|puts| - 1];
      assert forall j :: i < j < |init| ==> init[j].0 != init[i].0;
      ReplayLastWriteWins(t, init, i);
    }
  }

  /** An identifier that was never stored answers as it did before the stores. */
  lemma {:induction false} ReplayUntouched<Id, F>(t: map<Id, F>, puts: seq<(Id, F)>, id: Id)
    requires id !in PutIds(puts)
    ensures Lookup(Replay(t, puts), id) == Lookup(t, id)
  {
    if puts != [] {
      var init := puts[..|puts| - 1];
      assert puts[|puts| - 1].0 != id;
      assert forall i | 0 <= i < |init| :: init[i] == puts[i];
      ReplayUntouched(t, init, id);
    }
  }

  /*
   * The shared storage and the handles onto it.
   */

  /** The static map of one instantiation: created empty, updated in place, never shrunk. */
  class Storage<Id(==), A, R> {
    var table: map<Id, A --> R>
    /** Every store ever made, oldest first. */
    ghost var puts: seq<(Id, A --> R)>

    /** The table is the replay of its history on the empty map. */
    ghost predicate Valid()
      reads this
    {
      table == Replay(map[], puts)
    }

    /** The static map at its first use: empty, with no history. */
    constructor ()
      ensures Valid()
      ensures table == map[] && puts == []
    {
      table := map[];
      puts := [];
    }

    /** _StoragePut: `fmap[id] = *func`, insert or overwrite, never fails. */
    method Put(f: A --> R, id: Id)
      requires Valid()
      modifies this
      ensures Valid()
      ensures table == old(table)[id := f]
      ensures puts == old(puts) + [(id, f)]
    {
      table := table[id := f];
      puts := puts + [(id, f)];
    }

    /** _StorageGet: a read-only `find`; the callable or NotFound(id). */
    method Get(id: Id) returns (r: Result<A --> R, Id>)
      ensures r == Lookup(table, id)
    {
      if id in table {
        r := Ok(table[id]);
      } else {
        r := Err(NotFound(id));
      }
    }
  }

  /** The history lemmas apply to a storage: its keys are exactly the identifiers ever stored. */
  lemma StorageKeys<Id, A, R>(s: Storage<Id, A, R>)
    requires s.Valid()
    ensures s.table.Keys == PutIds(s.puts)
  {
    ReplayKeys(map[], s.puts);
  }

  /** In a storage, an identifier's callable is the one of its latest store. */
  lemma StorageLastWriteWins<Id, A, R>(s: Storage<Id, A, R>, i: nat)
    requires s.Valid() && i < |s.puts|
    requires forall j :: i < j < |s.puts| ==> s.puts[j].0 != s.puts[i].0
    ensures Lookup(s.table, s.puts[i].0) == Ok(s.puts[i].1)
  {
    ReplayLastWriteWins(map[], s.puts, i);
  }

  /** A DynamicCaller object: a handle onto the storage its instantiation shares. */
  class DynamicCaller<Id(==), A, R> {
    const storage: Storage<Id, A, R>

    ghost predicate Valid()
      reads storage
    {
      storage.Valid()
    }

    /** A handle on the given storage; callers pass every handle of one instantiation the same one. */
    constructor (storage: Storage<Id, A, R>)
      ensures this.storage == storage
    {
      this.storage := storage;
    }

    /** PutFunction: registers `f` under `id`, replacing any earlier callable for `id`. */
    method PutFunction(f: A --> R, id: Id)
      requires Valid()
      modifies storage
      ensures Valid()
      ensures storage.table == old(storage.table)[id := f]
      ensures storage.puts == old(storage.puts) + [(id, f)]
    {
      storage.Put(f, id);
    }

    /** GetFunction: the callable registered for `id`, or NotFound(id); the table is not changed. */
    method GetFunction(id: Id) returns (r: Result<A --> R, Id>)
      ensures r == Lookup(storage.table, id)
    {
      r := storage.Get(id);
    }

    /** CallFunction: looks `id` up and applies what it finds to `args`; NotFound(id) otherwise. */
    method CallFunction(id: Id, args: A) returns (r: Result<R, Id>)
      requires CanCall(storage.table, id, args)
      ensures r == Apply(storage.table, id, args)
    {
      var found := storage.Get(id);
      match found
      case Ok(func) =>
        r := Ok(func(args));
      case Err(e) =>
        r := Err(e);
    }
  }

  /** A store made through one handle is seen through any other handle on the same storage. */
  method ShareAcrossHandles<Id(==), A, R>(writer: DynamicCaller<Id, A, R>, reader: DynamicCaller<Id, A, R>,
                                          f: A --> R, id: Id) returns (r: Result<A --> R, Id>)
    requires writer.storage == reader.storage && writer.Valid()
    modifies writer.storage
    ensures r == Ok(f)
  {
    writer.PutFunction(f, id);
    r := reader.GetFunction(id);
  }
}
