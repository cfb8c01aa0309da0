/**
 * Keyed persistence of work orders (assets/js/app.js, lines 48-70): each order
 * is stored in `localStorage` as one serialised string under a key made of a
 * fixed prefix and the trimmed order id.
 */
module OrderStore {
  import opened Wrappers
  import opened JsString

  const StorageKeyPrefix: string := "os_manager_"

  /** The message of the error `saveOrder` throws for a missing id. */
  const MissingIdMessage: string := "Informe um ID de OS para salvar."

  /** `buildStorageKey(orderId)`: the prefix followed by the id with surrounding whitespace removed. */
  function BuildStorageKey(orderId: string): (key: string)
    ensures |key| >= |StorageKeyPrefix| && key[..|StorageKeyPrefix|] == StorageKeyPrefix
    ensures exists i :: TrimmedAt(orderId, i, key[|StorageKeyPrefix|..])
    ensures IsTrimmed(key[|StorageKeyPrefix|..])
  {
    StorageKeyPrefix + Trim(orderId)
  }

  /** Two ids share a storage key exactly when their trimmed forms are equal. */
  lemma StorageKeyEqualIff(a: string, b: string)
    ensures BuildStorageKey(a) == BuildStorageKey(b) <==> Trim(a) == Trim(b)
  {
    var n := |StorageKeyPrefix|;
    assert BuildStorageKey(a)[n..] == Trim(a) && BuildStorageKey(b)[n..] == Trim(b);
  }

  /**
   * An id made only of whitespace is not rejected (it is not empty), and it is stored
   * under the bare prefix.
   */
  lemma BlankIdUsesBarePrefix(orderId: string)
    requires forall k :: 0 <= k < |orderId| ==> IsWhitespace(orderId[k])
    ensures BuildStorageKey(orderId) == StorageKeyPrefix
  {
  }

  /** The name of the exception `localStorage.setItem` throws when the record does not fit. */
  const QuotaExceededName: string := "QuotaExceededError"

  /** What `saveOrder` does: it stores the record, or throws before writing anything. */
  datatype SaveOutcome = Saved | Thrown(message: string)

  /**
   * The `localStorage` map and the `JSON.stringify`/`JSON.parse` pair it is used with;
   * `parse` undoes `serialize`, and no record serialises to the empty string.
   */
  class Store<T(!new)> {
    var storage: map<string, string>
    const serialize: T -> string
    const parse: string -> Option<T>

    ghost predicate Valid()
    {
      forall x :: parse(serialize(x)) == Some(x) && serialize(x) != ""
    }

    constructor (serialize: T -> string, parse: string -> Option<T>)
      requires forall x :: parse(serialize(x)) == Some(x) && serialize(x) != ""
      ensures Valid() && storage == map[]
      ensures this.serialize == serialize && this.parse == parse
    {
      this.serialize := serialize;
      this.parse := parse;
      storage := map[];
    }

    /** `loadOrder(orderId)`: null for an empty id, a missing or empty record, or one that does not parse. */
    function LoadOrder(orderId: string): (r: Option<T>)
      reads this
      ensures orderId == "" ==> r == None
      ensures BuildStorageKey(orderId) !in storage ==> r == None
      ensures r.Some? ==> parse(storage[BuildStorageKey(orderId)]) == r
    {
      if orderId == "" then None
      else
        var key := BuildStorageKey(orderId);
        if key !in storage || storage[key] == "" then None
        else parse(storage[key])
    }

    /**
     * `saveOrder(orderId, data)`: throws on an empty id, else writes the serialised record under
     * its key. `accepted` is the browser's quota decision: when the record does not fit,
     * `setItem` throws and the storage is left as it was.
     */
    method SaveOrder(orderId: string, data: T, accepted: bool) returns (outcome: SaveOutcome)
      requires Valid()
      modifies this
      ensures Valid()
      ensures orderId == "" ==> outcome == Thrown(MissingIdMessage) && storage == old(storage)
      ensures orderId != "" && !accepted ==> outcome == Thrown(QuotaExceededName) && storage == old(storage)
      ensures orderId != "" && accepted ==>
        outcome == Saved && storage == old(storage)[BuildStorageKey(orderId) := serialize(data)]
      ensures outcome == Saved ==> LoadOrder(orderId) == Some(data)
      ensures forall id :: BuildStorageKey(id) != BuildStorageKey(orderId) ==> LoadOrder(id) == old(LoadOrder(id))
    {
      if orderId == "" {
        return Thrown(MissingIdMessage);
      }
      if !accepted {
        return Thrown(QuotaExceededName);
      }
      var key := BuildStorageKey(orderId);
      storage := storage[key := serialize(data)];
      assert storage[key] == serialize(data) && serialize(data) != "";
      forall id | BuildStorageKey(id) != key
        ensures LoadOrder(id) == old(LoadOrder(id))
      {
        var k := BuildStorageKey(id);
        assert k in storage <==> k in old(storage);
        if k in storage {
          assert storage[k] == old(storage)[k];
        }
      }
      outcome := Saved;
    }

    /** `deleteOrder(orderId)`: does nothing for an empty id, else removes the record under its key. */
    method DeleteOrder(orderId: string)
      requires Valid()
      modifies this
      ensures Valid()
      ensures storage == if orderId == "" then old(storage) else old(storage) - {BuildStorageKey(orderId)}
      ensures LoadOrder(orderId) == None
      ensures forall id :: BuildStorageKey(id) != BuildStorageKey(orderId) ==> LoadOrder(id) == old(LoadOrder(id))
    {
      if orderId == "" {
        return;
      }
      var key := BuildStorageKey(orderId);
      storage := storage - {key};
      forall id | BuildStorageKey(id) != key
        ensures LoadOrder(id) == old(LoadOrder(id))
      {
        var k := BuildStorageKey(id);
        assert k in storage <==> k in old(storage);
        if k in storage {
          assert storage[k] == old(storage)[k];
        }
      }
    }
  }
}
