/**
 * The synchronous string-keyed store (`localStorage`). A stored string is
 * either the JSON text of a value (`Doc`), which `JSON.parse` reads back as
 * that value, or text that `JSON.parse` rejects (`Plain`): the version stamp,
 * the last-backup key name, the last-saved time and any corrupt content.
 */
module Storage {
  import opened Wrappers
  import opened JsonModel

  datatype Value = Doc(doc: Json) | Plain(text: string)

  type Store = map<string, Value>

  /** `localStorage.getItem(key)`, with `None` for `null`. */
  function Lookup(store: Store, key: string): (v: Option<Value>)
    ensures v.Some? <==> key in store
    ensures v.Some? ==> v.value == store[key]
  {
    if key in store then Some(store[key]) else None
  }

  /** `!localStorage.getItem(key)`: absent or the empty string. */
  predicate Blank(store: Store, key: string) {
    key !in store || store[key] == Plain("")
  }

  /** Key `k` is absent from both stores or present in both with the same value. */
  ghost predicate Agree(a: Store, b: Store, k: string) {
    (k in a <==> k in b) && (k in a ==> a[k] == b[k])
  }

  /** No key appears twice. */
  predicate NoRepeats(ks: seq<string>) {
    forall i, j :: 0 <= i < j < |ks| ==> ks[i] != ks[j]
  }

  /**
   * `localStorage.key(0)` to `localStorage.key(localStorage.length - 1)`:
   * every key of the store once, in an order the store chooses.
   */
  method Keys(store: Store) returns (ks: seq<string>)
    ensures NoRepeats(ks)
    ensures forall k :: k in ks <==> k in store
  {
    ks := [];
    var rest := store.Keys;
    while rest != {}
      invariant NoRepeats(ks)
      invariant forall k :: k in store <==> k in ks || k in rest
      invariant forall k :: k in ks ==> k !in rest
      decreases |rest|
    {
      var k :| k in rest;
      ks := ks + [k];
      rest := rest - {k};
    }
  }
}
