/** The self-healing key-value wrapper `storage` (utils.js:2-25) over the
    host's string store. JSON.parse, JSON.stringify and the host's quota rule
    are functions given to the store when it is made. */
module Storage {
  import opened Wrappers

  /** What JSON.stringify gives for a value: a text, `undefined` (for
      `undefined`, functions and symbols), or a thrown error's message (for
      cyclic structures and BigInts). */
  datatype Serialized = Text(text: string) | Undefined | Throws(message: string)

  /** What a read finds under a key. */
  datatype ReadOutcome<V> = Absent | Parsed(value: V) | Corrupt

  const FailurePrefix := "utils.storage.set failed: "

  /** getItem, then JSON.parse on the entry found. */
  function Read<V>(items: map<string, string>, key: string, parse: string -> Option<V>): ReadOutcome<V> {
    if key !in items then Absent
    else match parse(items[key])
      case Some(v) => Parsed(v)
      case None => Corrupt
  }

  /** The string setItem receives: the host turns `undefined` into "undefined". */
  function StoredText(s: Serialized): string
    requires !s.Throws?
  {
    match s
    case Text(t) => t
    case Undefined => "undefined"
  }

  /** stringify then setItem: the new store, or the message `set` throws.
      `rejects` is the host's rule for a store it cannot hold (its quota),
      giving the message of the error setItem throws. */
  function Write(items: map<string, string>, key: string, s: Serialized,
                 rejects: map<string, string> -> Option<string>): Result<map<string, string>, string>
  {
    match s
    case Throws(cause) => Err(FailurePrefix + cause)
    case _ =>
      var next := items[key := StoredText(s)];
      match rejects(next)
      case Some(cause) => Err(FailurePrefix + cause)
      case None => Ok(next)
  }

  /** A successful write stores the serialized text under `key` and keeps
      every other entry; a failed one reports the cause behind the fixed prefix. */
  lemma WriteEffect(items: map<string, string>, key: string, s: Serialized,
                    rejects: map<string, string> -> Option<string>)
    ensures Write(items, key, s, rejects).Ok? ==>
      var next := Write(items, key, s, rejects).value;
      key in next && next[key] == StoredText(s) &&
      next.Keys == items.Keys + {key} &&
      forall k :: k in items && k != key ==> next[k] == items[k]
    ensures Write(items, key, s, rejects).Err? ==>
      var e := Write(items, key, s, rejects).error;
      |e| >= |FailurePrefix| && e[..|FailurePrefix|] == FailurePrefix
    ensures Write(items, key, s, rejects).Err? <==>
      s.Throws? || rejects(items[key := StoredText(s)]).Some?
  {
  }

  /** Writing `v` and reading it back yields whatever JSON.parse makes of the
      text JSON.stringify wrote: `v` itself when the two round-trip. */
  lemma SetThenGet<V>(items: map<string, string>, key: string, s: Serialized,
                      rejects: map<string, string> -> Option<string>, parse: string -> Option<V>, v: V)
    requires Write(items, key, s, rejects).Ok?
    requires s.Text? && parse(s.text) == Some(v)
    ensures Read(Write(items, key, s, rejects).value, key, parse) == Parsed(v)
  {
  }

  /** Storing `undefined` writes "undefined", which JSON.parse rejects: the
      next read finds the entry corrupt (and so removes it). */
  lemma SetUndefinedThenGet<V>(items: map<string, string>, key: string,
                               rejects: map<string, string> -> Option<string>, parse: string -> Option<V>)
    requires Write(items, key, Undefined, rejects).Ok?
    requires parse("undefined") == None
    ensures Read(Write(items, key, Undefined, rejects).value, key, parse) == Corrupt
  {
  }

  /** After a corrupt entry is removed, the next read under that key finds
      nothing, and no other key's reading has changed. */
  lemma HealedReadIsAbsent<V>(items: map<string, string>, key: string, parse: string -> Option<V>)
    requires Read(items, key, parse) == Corrupt
    ensures Read(items - {key}, key, parse) == Absent
    ensures forall k :: k != key ==> Read(items - {key}, k, parse) == Read(items, k, parse)
  {
  }

  /** The wrapper over the host store (localStorage), with the host's JSON
      functions and quota rule. */
  class KeyedStore<V> {
    var items: map<string, string>
    const parse: string -> Option<V>
    const stringify: V -> Serialized
    const rejects: map<string, string> -> Option<string>

    constructor (items: map<string, string>, parse: string -> Option<V>, stringify: V -> Serialized,
                 rejects: map<string, string> -> Option<string>)
      ensures this.items == items && this.parse == parse
      ensures this.stringify == stringify && this.rejects == rejects
    {
      this.items := items;
      this.parse := parse;
      this.stringify := stringify;
      this.rejects := rejects;
    }

    /** `storage.get(key, defaultValue)`: the parsed entry, or the default
        when there is none; a corrupt entry is removed and the default
        returned. Never fails while the host store works. */
    method Get(key: string, defaultValue: V) returns (v: V)
      modifies this
      ensures Read(old(items), key, parse) == Absent ==> v == defaultValue && items == old(items)
      ensures Read(old(items), key, parse).Parsed? ==>
        v == Read(old(items), key, parse).value && items == old(items)
      ensures Read(old(items), key, parse) == Corrupt ==>
        v == defaultValue && items == old(items) - {key}
    {
      if key !in items {
        v := defaultValue;
      } else {
        var parsed := parse(items[key]);
        match parsed
        case Some(value) =>
          v := value;
        case None =>
          items := items - {key};
          v := defaultValue;
      }
    }

    /** `storage.set(key, value)`: writes the serialized value, or fails with
        the prefixed message and leaves the store as it was. */
    method Set(key: string, value: V) returns (result: Outcome<string>)
      modifies this
      ensures Write(old(items), key, stringify(value), rejects).Ok? ==>
        result == Pass && items == Write(old(items), key, stringify(value), rejects).value
      ensures Write(old(items), key, stringify(value), rejects).Err? ==>
        result == Fail(Write(old(items), key, stringify(value), rejects).error) && items == old(items)
    {
      var s := stringify(value);
      if s.Throws? {
        result := Fail(FailurePrefix + s.message);
        return;
      }
      var next := items[key := StoredText(s)];
      match rejects(next)
      case Some(cause) =>
        result := Fail(FailurePrefix + cause);
      case None =>
        items := next;
        result := Pass;
    }

    /** `storage.remove(key)`: drops the entry if there is one. */
    method Remove(key: string)
      modifies this
      ensures items == old(items) - {key}
      ensures key !in old(items) ==> items == old(items)
    {
      items := items - {key};
    }

    /** `storage.clear()`: empties the whole host store, entries written by
        others included. */
    method Clear()
      modifies this
      ensures items == map[]
    {
      items := map[];
    }
  }
}
