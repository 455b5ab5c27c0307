/** The encrypted store of secrets: a master key file, a file of ciphertexts and a cache of values. */
module Secrets {
  import opened SecretFile
  import opened Wrappers

  type Key = k: seq<bv8> | |k| == 32 witness seq(32, _ => 0)
  type Nonce = n: seq<bv8> | |n| == 12 witness seq(12, _ => 0)

  /** HKDF, AES-GCM and base64: seal gives, and open takes, the base64 text of nonce and ciphertext. */
  datatype Crypto = Crypto(
    derive: string -> Key,
    seal: (Key, Nonce, string) -> string,
    open: (Key, string) -> Option<string>,
    encode: Key -> string,
    decode: string -> Option<Key>)
  {
    ghost predicate Sound() {
      && (forall k, n, v :: open(k, seal(k, n, v)) == Some(v))
      && (forall k, n, v :: Clean(seal(k, n, v)))
      && (forall k :: decode(Trim(encode(k))) == Some(k))
    }
  }

  datatype Error = NoMasterKey | HasEntries | Unreadable

  /** The values of the entries that open under the key. */
  ghost function Opened(c: Crypto, key: Option<Key>, kv: map<string, string>): map<string, string> {
    map n | n in kv && key.Some? && c.open(key.value, kv[n]).Some? :: c.open(key.value, kv[n]).value
  }

  ghost predicate AllOpen(c: Crypto, key: Option<Key>, kv: map<string, string>) {
    forall n :: n in kv ==> n in Opened(c, key, kv)
  }

  /** Sealing one more value adds it. */
  lemma OpenedSealed(c: Crypto, key: Key, kv: map<string, string>, name: string, nonce: Nonce, value: string)
    requires c.Sound()
    ensures Opened(c, Some(key), kv[name := c.seal(key, nonce, value)]) == Opened(c, Some(key), kv)[name := value]
    ensures AllOpen(c, Some(key), kv) ==> AllOpen(c, Some(key), kv[name := c.seal(key, nonce, value)])
  {
  }

  /** kv is what the values of plain are sealed as. */
  ghost predicate SealedAs(c: Crypto, key: Key, plain: map<string, string>, kv: map<string, string>) {
    && (forall n :: n in kv <==> n in plain)
    && (forall n :: n in kv ==> Clean(kv[n]) && c.open(key, kv[n]) == Some(plain[n]))
  }

  lemma SealedOpens(c: Crypto, key: Key, plain: map<string, string>, kv: map<string, string>)
    requires SealedAs(c, key, plain, kv)
    ensures Opened(c, Some(key), kv) == plain && AllOpen(c, Some(key), kv)
  {
  }

  /** What a file written for kv is read as. */
  lemma WrittenIsRead(text: string, kv: map<string, string>)
    requires IsRendering(text, kv) && Representable(kv)
    ensures Parse(text) == kv
  {
    RoundTripIff(text, kv);
  }

  /** Every ciphertext opens, and the cache never disagrees with the file. */
  ghost predicate Agree(c: Crypto, key: Option<Key>, kv: map<string, string>, cache: map<string, string>) {
    && c.Sound()
    && AllOpen(c, key, kv)
    && Held(cache, Opened(c, key, kv))
  }

  ghost predicate Held(cache: map<string, string>, values: map<string, string>) {
    forall n :: n in cache ==> n in values && cache[n] == values[n]
  }

  lemma HeldAlso(cache: map<string, string>, values: map<string, string>, name: string, value: string)
    requires Held(cache, values)
    ensures Held(cache[name := value], values[name := value])
    ensures Held(cache - {name}, values - {name})
  {
  }

  lemma NotOpened(c: Crypto, key: Option<Key>, kv: map<string, string>, name: string)
    requires Representable(kv) && !WellFormed(name)
    ensures name !in Opened(c, key, kv)
  {
  }

  /** Writing one more value adds it if and only if its name is well formed. */
  lemma SetEffect(c: Crypto, key: Key, kv: map<string, string>, cache: map<string, string>, name: string,
                  nonce: Nonce, value: string, text: string)
    requires Agree(c, Some(key), kv, cache) && Representable(kv)
    requires IsRendering(text, kv[name := c.seal(key, nonce, value)])
    ensures WellFormed(name) <==>
      && Agree(c, Some(key), Parse(text), cache[name := value])
      && Opened(c, Some(key), Parse(text)) == Opened(c, Some(key), kv)[name := value]
  {
    var more := kv[name := c.seal(key, nonce, value)];
    OpenedSealed(c, key, kv, name, nonce, value);
    if WellFormed(name) {
      WrittenIsRead(text, more);
      HeldAlso(cache, Opened(c, Some(key), kv), name, value);
    } else {
      ParseRepresentable(text);
      NotOpened(c, Some(key), Parse(text), name);
    }
  }

  /** Deleting an entry deletes its value. */
  lemma RemoveEffect(c: Crypto, key: Option<Key>, kv: map<string, string>, cache: map<string, string>, name: string)
    requires Agree(c, key, kv, cache)
    ensures Agree(c, key, kv - {name}, cache - {name})
    ensures Opened(c, key, kv - {name}) == Opened(c, key, kv) - {name}
  {
    var before, after := Opened(c, key, kv), Opened(c, key, kv - {name});
    assert after == before - {name};
    HeldAlso(cache, before, name, "");
  }

  class Store {
    const crypto: Crypto
    var master: Option<string>     // the text of master.key, if there is one
    var secrets: Option<string>    // the text of secrets.enc, if there is one
    var cache: map<string, string>

    constructor (crypto: Crypto, master: Option<string>, secrets: Option<string>)
      ensures this.crypto == crypto && this.master == master && this.secrets == secrets && cache == map[]
      ensures crypto.Sound() && master == None && secrets == None ==> Valid() && Values() == map[]
    {
      this.crypto, this.master, this.secrets, this.cache := crypto, master, secrets, map[];
    }

    ghost function Entries(): map<string, string>
      reads this
    {
      if secrets.None? then map[] else Parse(secrets.value)
    }

    ghost function MasterKey(): Option<Key>
      reads this
    {
      if master.None? then None else crypto.decode(Trim(master.value))
    }

    /** The map from name to value the store stands for. */
    ghost function Values(): map<string, string>
      reads this
    {
      Opened(crypto, MasterKey(), Entries())
    }

    /** Every ciphertext opens under the master key, and the cache never disagrees with the files. */
    ghost predicate Valid()
      reads this
    {
      && (master.Some? ==> MasterKey().Some?)
      && Agree(crypto, MasterKey(), Entries(), cache)
    }

    method ReadAll() returns (kv: map<string, string>)
      ensures kv == Entries() && Representable(kv)
    {
      if secrets.None? {
        return map[];
      }
      ParseRepresentable(secrets.value);
      kv := ReadText(secrets.value);
    }

    method ReadKey() returns (r: Result<Key, Error>)
      ensures r.Ok? <==> MasterKey().Some?
      ensures r.Ok? ==> MasterKey() == Some(r.value)
      ensures r == Err(NoMasterKey) <==> master.None?
    {
      if master.None? {
        return Err(NoMasterKey);
      }
      var key := crypto.decode(Trim(master.value));
      r := if key.Some? then Ok(key.value) else Err(Unreadable);
    }

    /** A first master key, or another while there are no entries; with entries it is refused. */
    method SetMasterKey(passphrase: string, random: Key) returns (r: Result<Key, Error>)
      modifies this`master
      ensures r == if old(Entries()) != map[] then Err(HasEntries)
        else Ok(if passphrase != "" then crypto.derive(passphrase) else random)
      ensures r.Err? ==> master == old(master)
      ensures old(Valid()) ==> Valid() && Values() == old(Values()) && (r.Ok? ==> MasterKey() == Some(r.value))
    {
      var kv := ReadAll();
      if |kv| > 0 {
        return Err(HasEntries);
      }
      var key := if passphrase != "" then crypto.derive(passphrase) else random;
      master := Some(crypto.encode(key));
      return Ok(key);
    }

    /** The value of name, or "" when there is none. */
    method Get(name: string) returns (r: Result<string, Error>)
      modifies this`cache
      ensures r.Ok? <==> name in old(cache) || name !in Entries() || name in Values()
      ensures cache == if r.Ok? && name in Entries() then old(cache)[name := r.value] else old(cache)
      ensures old(Valid()) ==> Valid() && r == Ok(if name in Values() then Values()[name] else "")
    {
      if name in cache {
        assert cache[name := cache[name]] == cache;
        return Ok(cache[name]);
      }
      var kv := ReadAll();
      if name !in kv {
        return Ok("");
      }
      var key := ReadKey();
      if key.Err? {
        return Err(key.error);
      }
      var value := crypto.open(key.value, kv[name]);
      if value.None? {
        return Err(Unreadable);
      }
      cache := cache[name := value.value];
      return Ok(value.value);
    }

    /** Stores a value. In a valid store that adds exactly this value if and only if the name is well formed;
        another name would be read back as a different one, or not at all. */
    method Set(name: string, value: string, nonce: Nonce) returns (r: Result<(), Error>)
      modifies this`secrets, this`cache
      ensures r.Ok? <==> MasterKey().Some?
      ensures r.Err? ==> secrets == old(secrets) && cache == old(cache)
      ensures r.Ok? ==> secrets.Some? && cache == old(cache)[name := value]
      ensures r.Ok? ==>
        IsRendering(secrets.value, old(Entries())[name := crypto.seal(MasterKey().value, nonce, value)])
      ensures old(Valid()) && r.Ok? ==> (Valid() && Values() == old(Values())[name := value] <==> WellFormed(name))
    {
      if master.None? {
        return Err(NoMasterKey);
      }
      var kv := ReadAll();
      var key := ReadKey();
      if key.Err? {
        return Err(key.error);
      }
      ghost var before := kv;
      kv := kv[name := crypto.seal(key.value, nonce, value)];
      var text := RenderKV(kv);
      secrets := Some(text);
      cache := cache[name := value];
      ghost var wasValid := old(Valid());
      if wasValid {
        SetEffect(crypto, key.value, before, old(cache), name, nonce, value, text);
      }
      return Ok(());
    }

    /** Deletes a value; false when there is none. */
    method Remove(name: string) returns (found: bool)
      modifies this`secrets, this`cache
      ensures found <==> name in old(Entries())
      ensures !found ==> secrets == old(secrets) && cache == old(cache)
      ensures Entries() == old(Entries()) - {name}
      ensures old(Valid()) ==> Valid() && Values() == old(Values()) - {name}
    {
      var kv := ReadAll();
      if name !in kv {
        return false;
      }
      ghost var before := kv;
      kv := kv - {name};
      var text := RenderKV(kv);
      secrets := Some(text);
      cache := cache - {name};
      WrittenIsRead(text, kv);
      ghost var wasValid := old(Valid());
      if wasValid {
        RemoveEffect(crypto, MasterKey(), before, old(cache), name);
      }
      return true;
    }

    /** Opens every entry; fails when one does not open. */
    method OpenAll(key: Key, kv: map<string, string>) returns (r: Result<map<string, string>, Error>)
      ensures r.Ok? <==> AllOpen(crypto, Some(key), kv)
      ensures r.Ok? ==> r.value == Opened(crypto, Some(key), kv)
    {
      var plain: map<string, string> := map[];
      var left := kv.Keys;
      ghost var values := Opened(crypto, Some(key), kv);
      while left != {}
        invariant left <= kv.Keys
        invariant forall n :: n in plain <==> n in kv.Keys - left
        invariant forall n :: n in plain ==> n in values && plain[n] == values[n]
        decreases |left|
      {
        var n :| n in left;
        var value := crypto.open(key, kv[n]);
        if value.None? {
          assert n !in values;
          return Err(Unreadable);
        }
        plain := plain[n := value.value];
        left := left - {n};
      }
      assert plain == values;
      return Ok(plain);
    }

    /** Seals every value under a new key. */
    method SealAll(key: Key, plain: map<string, string>, nonces: string -> Nonce) returns (kv: map<string, string>)
      requires crypto.Sound()
      ensures SealedAs(crypto, key, plain, kv)
    {
      kv := map[];
      var left := plain.Keys;
      while left != {}
        invariant left <= plain.Keys
        invariant forall n :: n in kv <==> n in plain.Keys - left
        invariant forall n :: n in kv ==> Clean(kv[n]) && crypto.open(key, kv[n]) == Some(plain[n])
        decreases |left|
      {
        var n :| n in left;
        kv := kv[n := crypto.seal(key, nonces(n), plain[n])];
        left := left - {n};
      }
    }

    /** Seals every secret under a new master key; no value changes, and nothing does unless all of them open. */
    method ResetMasterKey(passphrase: string, random: Key, nonces: string -> Nonce) returns (r: Result<(), Error>)
      requires crypto.Sound()
      modifies this
      ensures r.Ok? <==> old(MasterKey()).Some? && AllOpen(crypto, old(MasterKey()), old(Entries()))
      ensures r.Err? ==> master == old(master) && secrets == old(secrets) && cache == old(cache)
      ensures r.Ok? ==> Valid() && Values() == old(Values()) && cache == map[]
      ensures r.Ok? ==> MasterKey() == Some(if passphrase != "" then crypto.derive(passphrase) else random)
    {
      var oldKey := ReadKey();
      if oldKey.Err? {
        return Err(oldKey.error);
      }
      var oldKV := ReadAll();
      var plain := OpenAll(oldKey.value, oldKV);
      if plain.Err? {
        return Err(plain.error);
      }
      var newKey := if passphrase != "" then crypto.derive(passphrase) else random;
      var newKV := SealAll(newKey, plain.value, nonces);
      var text := RenderKV(newKV);
      master := Some(crypto.encode(newKey));
      secrets := Some(text);
      cache := map[];
      WrittenIsRead(text, newKV);
      SealedOpens(crypto, newKey, plain.value, newKV);
      return Ok(());
    }
  }
}
