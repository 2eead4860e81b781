/** The six domain keys derived from a master. */
module Hierarchy {
  import opened Outcomes
  import opened ByteStrings
  import opened Crypto

  const MASTER_SALT: Bytes := Ascii("soteria-kh-v1/master-salt")
  const K_ENC: Bytes := Ascii("soteria-kh-v1/k-enc/aead-bulk")
  const K_AUTH: Bytes := Ascii("soteria-kh-v1/k-auth/block-mac")
  const K_META: Bytes := Ascii("soteria-kh-v1/k-meta/metadata")
  const K_SHARD: Bytes := Ascii("soteria-kh-v1/k-shard/erasure-coding")
  const K_XTS: Bytes := Ascii("soteria-kh-v1/k-xts/fde-sector")
  const K_HANDLE: Bytes := Ascii("soteria-kh-v1/k-handle/identity")

  datatype Domain = Enc | Auth | Meta | Shard | Xts | Handle
  {
    function InfoTag(): Bytes {
      match this
      case Enc => K_ENC
      case Auth => K_AUTH
      case Meta => K_META
      case Shard => K_SHARD
      case Xts => K_XTS
      case Handle => K_HANDLE
    }
  }

  /** `hkdf_sha256`: a 32-byte output is always within the limit, so the error never arises. */
  function HkdfSha256(p: Primitives, ikm: Bytes, salt: Bytes, info: Bytes): (r: Result<Key>)
    ensures r.Ok?
  {
    match p.hkdf(ikm, salt, info, 32)
    case None => Result<Key>.Err(AegisError.Hkdf)
    case Some(okm) => Ok(okm)
  }

  function Derive(p: Primitives, master: Bytes, tag: Bytes): Result<Key> {
    HkdfSha256(p, master, MASTER_SALT, tag)
  }

  datatype KeyHierarchy = KeyHierarchy(kEnc: Key, kAuth: Key, kMeta: Key, kShard: Key, kXts: Key, kHandle: Key)
  {
    /** `domain` */
    function DomainKey(d: Domain): Key {
      match d
      case Enc => kEnc
      case Auth => kAuth
      case Meta => kMeta
      case Shard => kShard
      case Xts => kXts
      case Handle => kHandle
    }
  }

  /** `from_master` */
  function FromMaster(p: Primitives, master: Bytes): (r: Result<KeyHierarchy>) {
    var kEnc :- Derive(p, master, K_ENC);
    var kAuth :- Derive(p, master, K_AUTH);
    var kMeta :- Derive(p, master, K_META);
    var kShard :- Derive(p, master, K_SHARD);
    var kXts :- Derive(p, master, K_XTS);
    var kHandle :- Derive(p, master, K_HANDLE);
    Ok(KeyHierarchy(kEnc, kAuth, kMeta, kShard, kXts, kHandle))
  }

  /** Derivation never fails, and every domain is answered with the key of its own label. */
  lemma DomainKeysAreDerived(p: Primitives, master: Bytes, d: Domain)
    ensures FromMaster(p, master).Ok?
    ensures Some(FromMaster(p, master).value.DomainKey(d)) == p.hkdf(master, MASTER_SALT, d.InfoTag(), 32)
  {
    match d
    case Enc => assert Derive(p, master, K_ENC).Ok?;
    case Auth => assert Derive(p, master, K_AUTH).Ok?;
    case Meta => assert Derive(p, master, K_META).Ok?;
    case Shard => assert Derive(p, master, K_SHARD).Ok?;
    case Xts => assert Derive(p, master, K_XTS).Ok?;
    case Handle => assert Derive(p, master, K_HANDLE).Ok?;
  }

  /** The six keys under their published labels, each behind its own domain. */
  lemma PublishedDomainKeys(p: Primitives, master: Bytes)
    ensures FromMaster(p, master).Ok?
    ensures var h := FromMaster(p, master).value; var salt := Ascii("soteria-kh-v1/master-salt");
            && Some(h.DomainKey(Enc)) == p.hkdf(master, salt, Ascii("soteria-kh-v1/k-enc/aead-bulk"), 32)
            && Some(h.DomainKey(Auth)) == p.hkdf(master, salt, Ascii("soteria-kh-v1/k-auth/block-mac"), 32)
            && Some(h.DomainKey(Meta)) == p.hkdf(master, salt, Ascii("soteria-kh-v1/k-meta/metadata"), 32)
            && Some(h.DomainKey(Shard)) == p.hkdf(master, salt, Ascii("soteria-kh-v1/k-shard/erasure-coding"), 32)
            && Some(h.DomainKey(Xts)) == p.hkdf(master, salt, Ascii("soteria-kh-v1/k-xts/fde-sector"), 32)
            && Some(h.DomainKey(Handle)) == p.hkdf(master, salt, Ascii("soteria-kh-v1/k-handle/identity"), 32)
  {
    DomainKeysAreDerived(p, master, Enc);
    DomainKeysAreDerived(p, master, Auth);
    DomainKeysAreDerived(p, master, Meta);
    DomainKeysAreDerived(p, master, Shard);
    DomainKeysAreDerived(p, master, Xts);
    DomainKeysAreDerived(p, master, Handle);
  }

  /** The hierarchy of a master, which always exists. */
  function HierarchyOf(p: Primitives, master: Bytes): (h: KeyHierarchy)
    ensures forall d: Domain :: Some(h.DomainKey(d)) == p.hkdf(master, MASTER_SALT, d.InfoTag(), 32)
  {
    DomainKeysAreDerived(p, master, Enc);
    var h := FromMaster(p, master).value;
    assert forall d: Domain :: Some(h.DomainKey(d)) == p.hkdf(master, MASTER_SALT, d.InfoTag(), 32) by {
      forall d: Domain ensures Some(h.DomainKey(d)) == p.hkdf(master, MASTER_SALT, d.InfoTag(), 32) {
        DomainKeysAreDerived(p, master, d);
      }
    }
    h
  }

  /** A hierarchy is determined by its six domain keys. */
  lemma HierarchyExtensional(h: KeyHierarchy, g: KeyHierarchy)
    ensures h == g <==> forall d :: h.DomainKey(d) == g.DomainKey(d)
  {
    if forall d :: h.DomainKey(d) == g.DomainKey(d) {
      assert h.DomainKey(Enc) == g.DomainKey(Enc) && h.DomainKey(Auth) == g.DomainKey(Auth);
      assert h.DomainKey(Meta) == g.DomainKey(Meta) && h.DomainKey(Shard) == g.DomainKey(Shard);
      assert h.DomainKey(Xts) == g.DomainKey(Xts) && h.DomainKey(Handle) == g.DomainKey(Handle);
    }
  }
}
