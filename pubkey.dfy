/**
 * Public keys of DIDs (src/pubkey.ts): picking the key out of a DID
 * document, and the two-level store that keeps it, a cache in front of a
 * key-value namespace. A missing entry reads as `None`; an empty string is a
 * present but falsy value, as in the source.
 */
module Pubkey {
  import opened Wrappers

  /** A verification method of a DID document. */
  datatype VerificationMethod = VerificationMethod(id: string, methodType: string, publicKeyMultibase: Option<string>)

  /** A method whose key the verifier can use: type `Multikey` and a non-empty key. */
  predicate Usable(m: VerificationMethod) {
    m.methodType == "Multikey" && m.publicKeyMultibase.Some? && m.publicKeyMultibase.value != ""
  }

  /** `findPubkey`: the key of the first usable method, or `None` when no method is usable. */
  method FindPubkey(methods: seq<VerificationMethod>) returns (key: Option<string>)
    ensures key.None? <==> forall i :: 0 <= i < |methods| ==> !Usable(methods[i])
    ensures key.Some? ==>
      exists i :: 0 <= i < |methods| && Usable(methods[i]) && key.value == methods[i].publicKeyMultibase.value
        && forall j :: 0 <= j < i ==> !Usable(methods[j])
    ensures key.Some? ==> key.value != ""
  {
    var i := 0;
    while i < |methods|
      invariant 0 <= i <= |methods|
      invariant forall j :: 0 <= j < i ==> !Usable(methods[j])
    {
      if methods[i].methodType == "Multikey" && methods[i].publicKeyMultibase.Some? && methods[i].publicKeyMultibase.value != "" {
        return methods[i].publicKeyMultibase;
      }
      i := i + 1;
    }
    return None;
  }

  /** A store lookup: the value under `did`, if present. */
  function Lookup(store: map<string, string>, did: string): (v: Option<string>)
    ensures v.Some? <==> did in store
    ensures v.Some? ==> v.value == store[did]
  {
    if did in store then Some(store[did]) else None
  }

  /** The `pubkey` cache and the `did_key_store` namespace. */
  class KeyStores {
    var cache: map<string, string>
    var kv: map<string, string>

    /** Whatever the cache holds agrees with the namespace. */
    ghost predicate Coherent()
      reads this
    {
      forall d :: d in cache ==> d in kv && cache[d] == kv[d]
    }

    constructor (cache: map<string, string>, kv: map<string, string>)
      ensures this.cache == cache && this.kv == kv
    {
      this.cache := cache;
      this.kv := kv;
    }

    /** `savePubkey`: write both stores, unless the DID or the key is empty. */
    method SavePubkey(did: string, pubkey: string)
      modifies this
      ensures did == "" || pubkey == "" ==> cache == old(cache) && kv == old(kv)
      ensures did != "" && pubkey != "" ==> cache == old(cache)[did := pubkey] && kv == old(kv)[did := pubkey]
      ensures old(Coherent()) ==> Coherent()
    {
      if did == "" || pubkey == "" {
        return;
      }
      cache := cache[did := pubkey];
      kv := kv[did := pubkey];
    }

    /**
     * `getPubkey`: a non-empty cached key as is; otherwise the namespace's
     * value, copied into the cache when it is non-empty.
     */
    method GetPubkey(did: string) returns (pubkey: Option<string>)
      modifies this
      ensures kv == old(kv)
      ensures did in old(cache) && old(cache)[did] != "" ==>
        pubkey == Some(old(cache)[did]) && cache == old(cache)
      ensures !(did in old(cache) && old(cache)[did] != "") ==>
        && pubkey == Lookup(kv, did)
        && cache == if did in kv && kv[did] != "" then old(cache)[did := kv[did]] else old(cache)
      ensures old(Coherent()) ==> Coherent() && pubkey == Lookup(kv, did)
    {
      if did in cache && cache[did] != "" {
        return Some(cache[did]);
      }
      pubkey := Lookup(kv, did);
      if pubkey.Some? && pubkey.value != "" {
        cache := cache[did := pubkey.value];
      }
    }
  }
}
