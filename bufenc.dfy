/**
 * Page encryption in the buffer manager (src/backend/crypto/bufenc.c).
 *
 * A page is encrypted in place: everything from `PageEncryptOffset` on, for
 * `pageSize` bytes, is handed to an AEAD primitive (AES-GCM, NIST SP
 * 800-38D) together with a 16-byte IV made of the page LSN, the block
 * number and a marker for non-permanent relations, and, when the method
 * has a tag, with additional authenticated data made of the unencrypted
 * page-header prefix, the file number and the block number; the tag goes
 * into the last `tagSize` bytes of the block. The primitive itself is kept
 * abstract: the encryptor and decryptor are function parameters, and the
 * proofs only rely on them preserving lengths (and, for the round trip, on
 * decryption undoing encryption under the same IV and AAD).
 *
 * The page buffer is `cluster_block_size` bytes long, so `page.Length`
 * stands for `cluster_block_size` throughout.
 */
module BufEnc {
  import opened Common

  const BUFENC_IV_SIZE: nat := 16
  /** offsetof(PageHeaderData, pd_special): pd_lsn, pd_checksum, pd_flags, pd_lower, pd_upper. */
  const PageEncryptOffset: nat := 16
  /** sizeof(PageXLogRecPtr): the page LSN as two 32-bit halves. */
  const LSN_SIZE: nat := 8
  /** sizeof(AdditionalAuthenticatedData): the header prefix, then two 32-bit numbers. */
  const AAD_SIZE: nat := 24
  const NON_PERMANENT_MARK: byte := 0x80

  const DISABLED_ENCRYPTION_METHOD: int := 0
  const InvalidXLogRecPtr: uint64 := 0

  /** MAXALIGN(sizeof(GISTPageOpaqueData)). */
  const GIST_OPAQUE_SIZE: nat := 16
  const GIST_PAGE_ID: uint16 := 0xFF81
  /** The GiST page flags F_LEAF through F_HAS_GARBAGE. */
  const GIST_FLAG_BITMASK: nat := 0x1F

  // ---------------------------------------------------------------------
  // Bytes of the page header
  // ---------------------------------------------------------------------

  /** The bytes of `s` with `b` written over them from position `at` on (a `memcpy`). */
  function Splice(s: seq<byte>, at: nat, b: seq<byte>): (r: seq<byte>)
    requires at + |b| <= |s|
    ensures |r| == |s|
    ensures forall i :: 0 <= i < |s| ==> r[i] == if at <= i < at + |b| then b[i - at] else s[i]
  {
    s[..at] + b + s[at + |b|..]
  }

  /** After a splice, its slot holds the spliced bytes. */
  lemma SpliceSlot(s: seq<byte>, at: nat, b: seq<byte>)
    requires at + |b| <= |s|
    ensures Splice(s, at, b)[at..at + |b|] == b
  {
    var t := Splice(s, at, b);
    var u := t[at..at + |b|];
    assert forall i :: 0 <= i < |b| ==> u[i] == b[i];
  }

  /** A splice leaves every range that does not meet its slot alone. */
  lemma SpliceKeepsRange(s: seq<byte>, at: nat, b: seq<byte>, lo: nat, hi: nat)
    requires at + |b| <= |s| && lo <= hi <= |s|
    requires hi <= at || at + |b| <= lo
    ensures Splice(s, at, b)[lo..hi] == s[lo..hi]
  {
    var t := Splice(s, at, b);
    var u, v := t[lo..hi], s[lo..hi];
    assert forall i :: 0 <= i < hi - lo ==> u[i] == v[i];
  }

  /** The eight bytes of `pd_lsn`: `xlogid` (the high half), then `xrecoff`. */
  function LsnBytes(lsn: uint64): (r: seq<byte>)
    ensures |r| == LSN_SIZE
  {
    LE32(lsn / 0x1_0000_0000) + LE32(lsn % 0x1_0000_0000)
  }

  /** `PageGetLSN`: the LSN stored in the first eight bytes of the page. */
  function PageLsn(page: seq<byte>): uint64
    requires |page| >= LSN_SIZE
  {
    FromLE32(page[0..4]) * 0x1_0000_0000 + FromLE32(page[4..8])
  }

  lemma DivModByte(low: int, high: int)
    requires 0 <= low < 0x100
    ensures (low + 0x100 * high) / 0x100 == high && (low + 0x100 * high) % 0x100 == low
  {
  }

  lemma LE32OfBytes(b: seq<byte>)
    requires |b| == 4
    ensures LE32(FromLE32(b)) == b
  {
    var x := FromLE32(b);
    var top := b[2] as int + 0x100 * b[3] as int;
    var mid := b[1] as int + 0x100 * top;
    assert x == b[0] as int + 0x100 * mid;
    DivModByte(b[0], mid);
    DivModByte(b[1], top);
    DivModByte(b[2], b[3]);
  }

  /** `PageSetLSN` followed by `PageGetLSN` gives back the LSN. */
  lemma LsnBytesRoundTrip(lsn: uint64)
    ensures PageLsn(LsnBytes(lsn)) == lsn
  {
    var b := LsnBytes(lsn);
    LE32RoundTrip(lsn / 0x1_0000_0000);
    LE32RoundTrip(lsn % 0x1_0000_0000);
    assert b[0..4] == LE32(lsn / 0x1_0000_0000);
    assert b[4..8] == LE32(lsn % 0x1_0000_0000);
  }

  /** The eight header bytes are exactly the bytes of the LSN they encode. */
  lemma PageLsnBytes(page: seq<byte>)
    requires |page| >= LSN_SIZE
    ensures LsnBytes(PageLsn(page)) == page[..LSN_SIZE]
  {
    var hi, lo := FromLE32(page[0..4]), FromLE32(page[4..8]);
    assert PageLsn(page) / 0x1_0000_0000 == hi;
    assert PageLsn(page) % 0x1_0000_0000 == lo;
    LE32OfBytes(page[0..4]);
    LE32OfBytes(page[4..8]);
    assert page[..LSN_SIZE] == page[0..4] + page[4..8];
  }

  lemma LsnBytesInjective(a: uint64, b: uint64)
    ensures LsnBytes(a) == LsnBytes(b) <==> a == b
  {
    if LsnBytes(a) == LsnBytes(b) {
      LsnBytesRoundTrip(a);
      LsnBytesRoundTrip(b);
    }
  }

  // ---------------------------------------------------------------------
  // The IV and the additional authenticated data
  // ---------------------------------------------------------------------

  /**
   * The IV of `set_buffer_encryption_iv`: eight LSN bytes, the block number,
   * the non-permanent marker, zeros.
   */
  function Iv(lsn: seq<byte>, blkno: uint32, permanent: bool): (r: seq<byte>)
    requires |lsn| == LSN_SIZE
    ensures |r| == BUFENC_IV_SIZE
  {
    lsn + LE32(blkno) + [if permanent then 0 else NON_PERMANENT_MARK] + [0, 0, 0]
  }

  /** The IV built for a page: from the LSN in its header. */
  function PageIv(page: seq<byte>, blkno: uint32, permanent: bool): (r: seq<byte>)
    requires |page| >= PageEncryptOffset
    ensures |r| == BUFENC_IV_SIZE
  {
    Iv(page[..LSN_SIZE], blkno, permanent)
  }

  /** Byte by byte: LSN in 0-7, block number in 8-11, the marker in 12, zeros after. */
  lemma IvLayout(page: seq<byte>, blkno: uint32, permanent: bool)
    requires |page| >= PageEncryptOffset
    ensures var r := PageIv(page, blkno, permanent);
      && r[..LSN_SIZE] == LsnBytes(PageLsn(page))
      && r[8..12] == LE32(blkno)
      && (r[12] == NON_PERMANENT_MARK <==> !permanent)
      && r[12] in {0, NON_PERMANENT_MARK}
      && r[13] == r[14] == r[15] == 0
  {
    PageLsnBytes(page);
    var r := PageIv(page, blkno, permanent);
    assert r[..LSN_SIZE] == page[..LSN_SIZE];
    assert r[8..12] == LE32(blkno);
  }

  /** Distinct (LSN, block number, permanence) never share an IV, and equal ones always do. */
  lemma IvInjective(p: seq<byte>, blkP: uint32, permP: bool, q: seq<byte>, blkQ: uint32, permQ: bool)
    requires |p| >= PageEncryptOffset && |q| >= PageEncryptOffset
    ensures PageIv(p, blkP, permP) == PageIv(q, blkQ, permQ) <==>
      PageLsn(p) == PageLsn(q) && blkP == blkQ && permP == permQ
  {
    var a, b := PageIv(p, blkP, permP), PageIv(q, blkQ, permQ);
    IvLayout(p, blkP, permP);
    IvLayout(q, blkQ, permQ);
    LsnBytesInjective(PageLsn(p), PageLsn(q));
    LE32Injective(blkP, blkQ);
    if a == b {
      assert a[..LSN_SIZE] == b[..LSN_SIZE] && a[8..12] == b[8..12] && a[12] == b[12];
    }
  }

  /** The `AdditionalAuthenticatedData` struct. */
  datatype AuthData = AuthData(data: seq<byte>, fileno: uint32, blkNo: uint32)

  /** The struct's bytes, padding-free, as the AEAD primitive reads them. */
  function AadBytes(a: AuthData): (r: seq<byte>)
    ensures |r| == |a.data| + 8
  {
    a.data + LE32(a.fileno) + LE32(a.blkNo)
  }

  /** The AAD built for a page: its unencrypted header prefix and its location. */
  function PageAad(page: seq<byte>, blkno: uint32, fileno: uint32): AuthData
    requires |page| >= PageEncryptOffset
  {
    AuthData(page[..PageEncryptOffset], fileno, blkno)
  }

  /**
   * The AAD is `AAD_SIZE` bytes and binds the header prefix, the file and
   * the block: two pages get the same AAD exactly when all three agree.
   */
  lemma AadInjective(p: seq<byte>, blkP: uint32, fileP: uint32, q: seq<byte>, blkQ: uint32, fileQ: uint32)
    requires |p| >= PageEncryptOffset && |q| >= PageEncryptOffset
    ensures |AadBytes(PageAad(p, blkP, fileP))| == AAD_SIZE
    ensures AadBytes(PageAad(p, blkP, fileP)) == AadBytes(PageAad(q, blkQ, fileQ)) <==>
      p[..PageEncryptOffset] == q[..PageEncryptOffset] && fileP == fileQ && blkP == blkQ
  {
    var a, b := AadBytes(PageAad(p, blkP, fileP)), AadBytes(PageAad(q, blkQ, fileQ));
    LE32Injective(fileP, fileQ);
    LE32Injective(blkP, blkQ);
    if a == b {
      assert a[..16] == p[..PageEncryptOffset] && b[..16] == q[..PageEncryptOffset];
      assert a[16..20] == LE32(fileP) && b[16..20] == LE32(fileQ);
      assert a[20..24] == LE32(blkP) && b[20..24] == LE32(blkQ);
    }
  }

  // ---------------------------------------------------------------------
  // The encryption method and the abstract primitive
  // ---------------------------------------------------------------------

  /** What the unseen per-method tables give for a method. */
  datatype MethodInfo = MethodInfo(algorithm: int, blockLength: int, tagSize: nat, pageSize: nat)

  /** A cipher context of `pg_cipher_ctx_create`. */
  datatype CipherCtx = CipherCtx(algorithm: int, key: seq<byte>, blockLength: int, encrypting: bool)

  /** Ciphertext and tag of one AEAD encryption. */
  datatype Sealed = Sealed(text: seq<byte>, tag: seq<byte>)

  /** `pg_cipher_encrypt`: (context, input, IV, AAD, tag length), or `None` when it fails. */
  type Encryptor = (CipherCtx, seq<byte>, seq<byte>, seq<byte>, nat) -> Option<Sealed>
  /** `pg_cipher_decrypt`: (context, input, IV, AAD, tag), or `None` when it fails. */
  type Decryptor = (CipherCtx, seq<byte>, seq<byte>, seq<byte>, seq<byte>) -> Option<seq<byte>>
  /** `pg_cipher_ctx_create`: (algorithm, key, block length, encrypting), or `None`. */
  type CtxFactory = (int, seq<byte>, int, bool) -> Option<CipherCtx>

  /** The output is as long as the input, and the tag as long as asked. */
  ghost predicate EncryptorPreservesLength(encrypt: Encryptor)
  {
    forall c, x, iv, aad, t :: encrypt(c, x, iv, aad, t).Some? ==>
      |encrypt(c, x, iv, aad, t).value.text| == |x| && |encrypt(c, x, iv, aad, t).value.tag| == t
  }

  ghost predicate DecryptorPreservesLength(decrypt: Decryptor)
  {
    forall c, x, iv, aad, tag :: decrypt(c, x, iv, aad, tag).Some? ==> |decrypt(c, x, iv, aad, tag).value| == |x|
  }

  /** Decryption with `dec` undoes encryption with `enc` under the same IV and AAD. */
  ghost predicate Inverts(encrypt: Encryptor, decrypt: Decryptor, enc: CipherCtx, dec: CipherCtx)
  {
    forall x, iv, aad, t :: encrypt(enc, x, iv, aad, t).Some? ==>
      decrypt(dec, encrypt(enc, x, iv, aad, t).value.text, iv, aad, encrypt(enc, x, iv, aad, t).value.tag) == Some(x)
  }

  datatype EncError =
    | CannotInitEncryption(encMethod: int, keyLength: nat)
    | CannotInitDecryption
    | CannotEncrypt(blkno: uint32)
    | CannotDecrypt(blkno: uint32)

  /** The region handed to the primitive and the tag slot both lie inside the block. */
  predicate Fits(pageSize: nat, tagSize: nat, blockSize: nat)
  {
    PageEncryptOffset + pageSize + tagSize <= blockSize
  }

  // ---------------------------------------------------------------------
  // What EncryptPage and DecryptPage do to a page
  // ---------------------------------------------------------------------

  /** The GiST-relevant facts `EncryptPage` reads from the special space. */
  datatype SpecialArea = SpecialArea(specialSize: int, gistPageId: int, gistFlags: uint16)

  /**
   * A page whose special space looks like a GiST page's and whose LSN is
   * valid: its LSN is left alone.
   */
  predicate IsGistPageOrSimilar(page: seq<byte>, special: SpecialArea)
    requires |page| >= LSN_SIZE
  {
    && special.specialSize == GIST_OPAQUE_SIZE
    && special.gistPageId == GIST_PAGE_ID
    && BitAnd(special.gistFlags, 0xFFFF - GIST_FLAG_BITMASK) == 0
    && PageLsn(page) != InvalidXLogRecPtr
  }

  /** The page after the LSN step of `EncryptPage`: `fakeLsn` is `LSNForEncryption(false)`. */
  function LsnUpdated(page: seq<byte>, permanent: bool, special: SpecialArea, fakeLsn: uint64): (r: seq<byte>)
    requires |page| >= PageEncryptOffset
    ensures |r| == |page| && r[LSN_SIZE..] == page[LSN_SIZE..]
  {
    if !permanent && !IsGistPageOrSimilar(page, special) then Splice(page, 0, LsnBytes(fakeLsn)) else page
  }

  /** The LSN is replaced by the fake one exactly for non-permanent pages that are not GiST-like. */
  lemma LsnRewriteRule(page: seq<byte>, permanent: bool, special: SpecialArea, fakeLsn: uint64)
    requires |page| >= PageEncryptOffset
    ensures PageLsn(LsnUpdated(page, permanent, special, fakeLsn)) ==
      if !permanent && !IsGistPageOrSimilar(page, special) then fakeLsn else PageLsn(page)
  {
    if !permanent && !IsGistPageOrSimilar(page, special) {
      var r := LsnUpdated(page, permanent, special, fakeLsn);
      assert r[..LSN_SIZE] == LsnBytes(fakeLsn);
      assert r[0..4] == LsnBytes(fakeLsn)[0..4] && r[4..8] == LsnBytes(fakeLsn)[4..8];
      LsnBytesRoundTrip(fakeLsn);
    }
  }

  /** The AAD bytes, or none when the method has no tag. */
  function AadFor(page: seq<byte>, blkno: uint32, fileno: uint32, tagSize: nat): seq<byte>
    requires |page| >= PageEncryptOffset
  {
    if tagSize > 0 then AadBytes(PageAad(page, blkno, fileno)) else []
  }

  /** The bytes handed to the primitive. */
  function Region(page: seq<byte>, pageSize: nat): seq<byte>
    requires PageEncryptOffset + pageSize <= |page|
  {
    page[PageEncryptOffset..PageEncryptOffset + pageSize]
  }

  /** The tag slot at the end of the block. */
  function TagSlot(page: seq<byte>, tagSize: nat): seq<byte>
    requires tagSize <= |page|
  {
    page[|page| - tagSize..]
  }

  /** The primitive applied to a page's region, IV and AAD. */
  function Seal(enc: CipherCtx, encrypt: Encryptor, pageSize: nat, tagSize: nat, p: seq<byte>,
                blkno: uint32, fileno: uint32, permanent: bool): Option<Sealed>
    requires PageEncryptOffset + pageSize <= |p|
  {
    encrypt(enc, Region(p, pageSize), PageIv(p, blkno, permanent), AadFor(p, blkno, fileno, tagSize), tagSize)
  }

  /**
   * The page `EncryptPage` leaves, or `None` when the primitive fails (an
   * ERROR): the LSN step, then the encrypted region and the tag written back.
   */
  function EncryptedPage(enc: CipherCtx, encrypt: Encryptor, pageSize: nat, tagSize: nat, page: seq<byte>,
                         permanent: bool, blkno: uint32, fileno: uint32, special: SpecialArea, fakeLsn: uint64): (r: Option<seq<byte>>)
    requires Fits(pageSize, tagSize, |page|) && EncryptorPreservesLength(encrypt)
    ensures r.Some? ==> |r.value| == |page|
  {
    SealedPage(enc, encrypt, pageSize, tagSize, LsnUpdated(page, permanent, special, fakeLsn), blkno, fileno, permanent)
  }

  /** The part of `EncryptedPage` after the LSN step: the region and the tag slot rewritten, or `None`. */
  function SealedPage(enc: CipherCtx, encrypt: Encryptor, pageSize: nat, tagSize: nat, p: seq<byte>,
                      blkno: uint32, fileno: uint32, permanent: bool): (r: Option<seq<byte>>)
    requires Fits(pageSize, tagSize, |p|) && EncryptorPreservesLength(encrypt)
    ensures r.Some? ==> |r.value| == |p|
  {
    var sealed := Seal(enc, encrypt, pageSize, tagSize, p, blkno, fileno, permanent);
    if sealed.None? then None
    else Some(Splice(Splice(p, PageEncryptOffset, sealed.value.text), |p| - tagSize, sealed.value.tag))
  }

  /** The page `DecryptPage` leaves, or `None` when the primitive fails. */
  function DecryptedPage(dec: CipherCtx, decrypt: Decryptor, pageSize: nat, tagSize: nat, page: seq<byte>,
                         permanent: bool, blkno: uint32, fileno: uint32): (r: Option<seq<byte>>)
    requires Fits(pageSize, tagSize, |page|) && DecryptorPreservesLength(decrypt)
    ensures r.Some? ==> |r.value| == |page|
  {
    var tag := if tagSize > 0 then TagSlot(page, tagSize) else [];
    var plain := decrypt(dec, Region(page, pageSize), PageIv(page, blkno, permanent), AadFor(page, blkno, fileno, tagSize), tag);
    if plain.None? then None else Some(Splice(page, PageEncryptOffset, plain.value))
  }

  /**
   * Byte by byte, the encrypted page is the page after the LSN step with
   * the ciphertext over the region and the tag in the tag slot.
   */
  lemma EncryptedPageBytes(enc: CipherCtx, encrypt: Encryptor, pageSize: nat, tagSize: nat, page: seq<byte>,
                           permanent: bool, blkno: uint32, fileno: uint32, special: SpecialArea, fakeLsn: uint64)
    requires Fits(pageSize, tagSize, |page|) && EncryptorPreservesLength(encrypt)
    requires EncryptedPage(enc, encrypt, pageSize, tagSize, page, permanent, blkno, fileno, special, fakeLsn).Some?
    ensures var p := LsnUpdated(page, permanent, special, fakeLsn);
      var sealed := Seal(enc, encrypt, pageSize, tagSize, p, blkno, fileno, permanent).value;
      var q := EncryptedPage(enc, encrypt, pageSize, tagSize, page, permanent, blkno, fileno, special, fakeLsn).value;
      && |sealed.text| == pageSize && |sealed.tag| == tagSize
      && (forall i :: 0 <= i < |page| ==>
            q[i] == (if PageEncryptOffset <= i < PageEncryptOffset + pageSize then sealed.text[i - PageEncryptOffset]
                     else if |page| - tagSize <= i then sealed.tag[i - (|page| - tagSize)]
                     else p[i]))
  {
    SealedPageBytes(enc, encrypt, pageSize, tagSize, LsnUpdated(page, permanent, special, fakeLsn), blkno, fileno, permanent);
  }

  /** `EncryptedPageBytes` for the part after the LSN step. */
  lemma SealedPageBytes(enc: CipherCtx, encrypt: Encryptor, pageSize: nat, tagSize: nat, p: seq<byte>,
                        blkno: uint32, fileno: uint32, permanent: bool)
    requires Fits(pageSize, tagSize, |p|) && EncryptorPreservesLength(encrypt)
    requires SealedPage(enc, encrypt, pageSize, tagSize, p, blkno, fileno, permanent).Some?
    ensures var sealed := Seal(enc, encrypt, pageSize, tagSize, p, blkno, fileno, permanent).value;
      var q := SealedPage(enc, encrypt, pageSize, tagSize, p, blkno, fileno, permanent).value;
      && |sealed.text| == pageSize && |sealed.tag| == tagSize
      && (forall i :: 0 <= i < |p| ==>
            q[i] == (if PageEncryptOffset <= i < PageEncryptOffset + pageSize then sealed.text[i - PageEncryptOffset]
                     else if |p| - tagSize <= i then sealed.tag[i - (|p| - tagSize)]
                     else p[i]))
  {
  }

  /**
   * Encryption changes only the LSN (by the rule above), the region and the
   * tag slot: the rest of the unencrypted header and any bytes between the
   * region and the tag slot keep their values.
   */
  lemma EncryptChangesOnlyRegionTagAndLsn(enc: CipherCtx, encrypt: Encryptor, pageSize: nat, tagSize: nat, page: seq<byte>,
                                          permanent: bool, blkno: uint32, fileno: uint32, special: SpecialArea, fakeLsn: uint64)
    requires Fits(pageSize, tagSize, |page|) && EncryptorPreservesLength(encrypt)
    requires EncryptedPage(enc, encrypt, pageSize, tagSize, page, permanent, blkno, fileno, special, fakeLsn).Some?
    ensures var q := EncryptedPage(enc, encrypt, pageSize, tagSize, page, permanent, blkno, fileno, special, fakeLsn).value;
      && q[..PageEncryptOffset] == LsnUpdated(page, permanent, special, fakeLsn)[..PageEncryptOffset]
      && q[LSN_SIZE..PageEncryptOffset] == page[LSN_SIZE..PageEncryptOffset]
      && q[PageEncryptOffset + pageSize..|page| - tagSize] == page[PageEncryptOffset + pageSize..|page| - tagSize]
  {
    EncryptedAgreesOutside(enc, encrypt, pageSize, tagSize, page, permanent, blkno, fileno, special, fakeLsn, 0, PageEncryptOffset);
    EncryptedAgreesOutside(enc, encrypt, pageSize, tagSize, page, permanent, blkno, fileno, special, fakeLsn, LSN_SIZE, PageEncryptOffset);
    LsnUpdatedKeepsRest(page, permanent, special, fakeLsn, LSN_SIZE, PageEncryptOffset);
    EncryptedAgreesOutside(enc, encrypt, pageSize, tagSize, page, permanent, blkno, fileno, special, fakeLsn,
                           PageEncryptOffset + pageSize, |page| - tagSize);
    LsnUpdatedKeepsRest(page, permanent, special, fakeLsn, PageEncryptOffset + pageSize, |page| - tagSize);
  }

  /** Outside the region and the tag slot, the encrypted page is the page after the LSN step. */
  lemma EncryptedAgreesOutside(enc: CipherCtx, encrypt: Encryptor, pageSize: nat, tagSize: nat, page: seq<byte>,
                               permanent: bool, blkno: uint32, fileno: uint32, special: SpecialArea, fakeLsn: uint64,
                               lo: nat, hi: nat)
    requires Fits(pageSize, tagSize, |page|) && EncryptorPreservesLength(encrypt)
    requires EncryptedPage(enc, encrypt, pageSize, tagSize, page, permanent, blkno, fileno, special, fakeLsn).Some?
    requires lo <= hi
    requires hi <= PageEncryptOffset || (PageEncryptOffset + pageSize <= lo && hi <= |page| - tagSize)
    ensures EncryptedPage(enc, encrypt, pageSize, tagSize, page, permanent, blkno, fileno, special, fakeLsn).value[lo..hi]
         == LsnUpdated(page, permanent, special, fakeLsn)[lo..hi]
  {
    SealedKeepsOutside(enc, encrypt, pageSize, tagSize, LsnUpdated(page, permanent, special, fakeLsn), blkno, fileno, permanent, lo, hi);
  }

  /** `EncryptedAgreesOutside` for the part after the LSN step. */
  lemma SealedKeepsOutside(enc: CipherCtx, encrypt: Encryptor, pageSize: nat, tagSize: nat, p: seq<byte>,
                           blkno: uint32, fileno: uint32, permanent: bool, lo: nat, hi: nat)
    requires Fits(pageSize, tagSize, |p|) && EncryptorPreservesLength(encrypt)
    requires SealedPage(enc, encrypt, pageSize, tagSize, p, blkno, fileno, permanent).Some?
    requires lo <= hi
    requires hi <= PageEncryptOffset || (PageEncryptOffset + pageSize <= lo && hi <= |p| - tagSize)
    ensures SealedPage(enc, encrypt, pageSize, tagSize, p, blkno, fileno, permanent).value[lo..hi] == p[lo..hi]
  {
    var sealed := Seal(enc, encrypt, pageSize, tagSize, p, blkno, fileno, permanent).value;
    var mid := Splice(p, PageEncryptOffset, sealed.text);
    SpliceKeepsRange(mid, |p| - tagSize, sealed.tag, lo, hi);
    SpliceKeepsRange(p, PageEncryptOffset, sealed.text, lo, hi);
  }

  /** The LSN step leaves every byte after the LSN alone. */
  lemma LsnUpdatedKeepsRest(page: seq<byte>, permanent: bool, special: SpecialArea, fakeLsn: uint64, lo: nat, hi: nat)
    requires |page| >= PageEncryptOffset
    requires LSN_SIZE <= lo <= hi <= |page|
    ensures LsnUpdated(page, permanent, special, fakeLsn)[lo..hi] == page[lo..hi]
  {
    var p := LsnUpdated(page, permanent, special, fakeLsn);
    assert p[LSN_SIZE..] == page[LSN_SIZE..];
    assert p[lo..hi] == p[LSN_SIZE..][lo - LSN_SIZE..hi - LSN_SIZE];
    assert page[lo..hi] == page[LSN_SIZE..][lo - LSN_SIZE..hi - LSN_SIZE];
  }

  /**
   * The IV, the AAD, the input and the tag `DecryptPage` rebuilds from an
   * encrypted page are exactly those `EncryptPage` used and produced: the
   * LSN and the header prefix lie outside what encryption rewrites.
   */
  lemma DecryptRebuildsEncryptInputs(enc: CipherCtx, encrypt: Encryptor, pageSize: nat, tagSize: nat, page: seq<byte>,
                                     permanent: bool, blkno: uint32, fileno: uint32, special: SpecialArea, fakeLsn: uint64)
    requires Fits(pageSize, tagSize, |page|) && EncryptorPreservesLength(encrypt)
    requires EncryptedPage(enc, encrypt, pageSize, tagSize, page, permanent, blkno, fileno, special, fakeLsn).Some?
    ensures var p := LsnUpdated(page, permanent, special, fakeLsn);
      var q := EncryptedPage(enc, encrypt, pageSize, tagSize, page, permanent, blkno, fileno, special, fakeLsn).value;
      var sealed := Seal(enc, encrypt, pageSize, tagSize, p, blkno, fileno, permanent).value;
      && PageIv(q, blkno, permanent) == PageIv(p, blkno, permanent)
      && AadFor(q, blkno, fileno, tagSize) == AadFor(p, blkno, fileno, tagSize)
      && Region(q, pageSize) == sealed.text
      && (if tagSize > 0 then TagSlot(q, tagSize) else []) == sealed.tag
  {
    var p := LsnUpdated(page, permanent, special, fakeLsn);
    var q := EncryptedPage(enc, encrypt, pageSize, tagSize, page, permanent, blkno, fileno, special, fakeLsn).value;
    EncryptedAgreesOutside(enc, encrypt, pageSize, tagSize, page, permanent, blkno, fileno, special, fakeLsn, 0, PageEncryptOffset);
    EncryptedSlots(enc, encrypt, pageSize, tagSize, page, permanent, blkno, fileno, special, fakeLsn);
    assert q[..PageEncryptOffset] == q[0..PageEncryptOffset];
    assert p[..PageEncryptOffset] == p[0..PageEncryptOffset];
    assert q[..LSN_SIZE] == q[..PageEncryptOffset][..LSN_SIZE];
    assert p[..LSN_SIZE] == p[..PageEncryptOffset][..LSN_SIZE];
  }

  /** The encrypted page holds the ciphertext in the region and the tag in the tag slot. */
  lemma EncryptedSlots(enc: CipherCtx, encrypt: Encryptor, pageSize: nat, tagSize: nat, page: seq<byte>,
                       permanent: bool, blkno: uint32, fileno: uint32, special: SpecialArea, fakeLsn: uint64)
    requires Fits(pageSize, tagSize, |page|) && EncryptorPreservesLength(encrypt)
    requires EncryptedPage(enc, encrypt, pageSize, tagSize, page, permanent, blkno, fileno, special, fakeLsn).Some?
    ensures var p := LsnUpdated(page, permanent, special, fakeLsn);
      var q := EncryptedPage(enc, encrypt, pageSize, tagSize, page, permanent, blkno, fileno, special, fakeLsn).value;
      var sealed := Seal(enc, encrypt, pageSize, tagSize, p, blkno, fileno, permanent).value;
      && Region(q, pageSize) == sealed.text
      && (if tagSize > 0 then TagSlot(q, tagSize) else []) == sealed.tag
  {
    SealedSlots(enc, encrypt, pageSize, tagSize, LsnUpdated(page, permanent, special, fakeLsn), blkno, fileno, permanent);
  }

  /** `EncryptedSlots` for the part after the LSN step. */
  lemma SealedSlots(enc: CipherCtx, encrypt: Encryptor, pageSize: nat, tagSize: nat, p: seq<byte>,
                    blkno: uint32, fileno: uint32, permanent: bool)
    requires Fits(pageSize, tagSize, |p|) && EncryptorPreservesLength(encrypt)
    requires SealedPage(enc, encrypt, pageSize, tagSize, p, blkno, fileno, permanent).Some?
    ensures var q := SealedPage(enc, encrypt, pageSize, tagSize, p, blkno, fileno, permanent).value;
      var sealed := Seal(enc, encrypt, pageSize, tagSize, p, blkno, fileno, permanent).value;
      && Region(q, pageSize) == sealed.text
      && (if tagSize > 0 then TagSlot(q, tagSize) else []) == sealed.tag
  {
    SealedRegion(enc, encrypt, pageSize, tagSize, p, blkno, fileno, permanent);
    SealedTag(enc, encrypt, pageSize, tagSize, p, blkno, fileno, permanent);
  }

  lemma SealedRegion(enc: CipherCtx, encrypt: Encryptor, pageSize: nat, tagSize: nat, p: seq<byte>,
                     blkno: uint32, fileno: uint32, permanent: bool)
    requires Fits(pageSize, tagSize, |p|) && EncryptorPreservesLength(encrypt)
    requires SealedPage(enc, encrypt, pageSize, tagSize, p, blkno, fileno, permanent).Some?
    ensures Region(SealedPage(enc, encrypt, pageSize, tagSize, p, blkno, fileno, permanent).value, pageSize)
         == Seal(enc, encrypt, pageSize, tagSize, p, blkno, fileno, permanent).value.text
  {
    var sealed := Seal(enc, encrypt, pageSize, tagSize, p, blkno, fileno, permanent).value;
    assert |sealed.text| == pageSize && |sealed.tag| == tagSize;
    var mid := Splice(p, PageEncryptOffset, sealed.text);
    SpliceKeepsRange(mid, |p| - tagSize, sealed.tag, PageEncryptOffset, PageEncryptOffset + pageSize);
    SpliceSlot(p, PageEncryptOffset, sealed.text);
  }

  lemma SealedTag(enc: CipherCtx, encrypt: Encryptor, pageSize: nat, tagSize: nat, p: seq<byte>,
                  blkno: uint32, fileno: uint32, permanent: bool)
    requires Fits(pageSize, tagSize, |p|) && EncryptorPreservesLength(encrypt)
    requires SealedPage(enc, encrypt, pageSize, tagSize, p, blkno, fileno, permanent).Some?
    ensures (if tagSize > 0 then TagSlot(SealedPage(enc, encrypt, pageSize, tagSize, p, blkno, fileno, permanent).value, tagSize) else [])
         == Seal(enc, encrypt, pageSize, tagSize, p, blkno, fileno, permanent).value.tag
  {
    var sealed := Seal(enc, encrypt, pageSize, tagSize, p, blkno, fileno, permanent).value;
    assert |sealed.text| == pageSize && |sealed.tag| == tagSize;
    var mid := Splice(p, PageEncryptOffset, sealed.text);
    SpliceSlot(mid, |p| - tagSize, sealed.tag);
  }

  /** Decrypting an encrypted page puts the plaintext region of the page after the LSN step back. */
  lemma DecryptOfEncrypted(enc: CipherCtx, dec: CipherCtx, encrypt: Encryptor, decrypt: Decryptor, pageSize: nat, tagSize: nat,
                           page: seq<byte>, permanent: bool, blkno: uint32, fileno: uint32, special: SpecialArea, fakeLsn: uint64)
    requires Fits(pageSize, tagSize, |page|)
    requires EncryptorPreservesLength(encrypt) && DecryptorPreservesLength(decrypt) && Inverts(encrypt, decrypt, enc, dec)
    requires EncryptedPage(enc, encrypt, pageSize, tagSize, page, permanent, blkno, fileno, special, fakeLsn).Some?
    ensures var p := LsnUpdated(page, permanent, special, fakeLsn);
      var q := EncryptedPage(enc, encrypt, pageSize, tagSize, page, permanent, blkno, fileno, special, fakeLsn).value;
      DecryptedPage(dec, decrypt, pageSize, tagSize, q, permanent, blkno, fileno) == Some(Splice(q, PageEncryptOffset, Region(p, pageSize)))
  {
    DecryptRebuildsEncryptInputs(enc, encrypt, pageSize, tagSize, page, permanent, blkno, fileno, special, fakeLsn);
  }

  /**
   * When the primitive's decryption undoes its encryption, decrypting an
   * encrypted page gives back the page as it was after the LSN step,
   * except for the tag slot, which keeps the tag.
   */
  lemma DecryptUndoesEncrypt(enc: CipherCtx, dec: CipherCtx, encrypt: Encryptor, decrypt: Decryptor, pageSize: nat, tagSize: nat,
                             page: seq<byte>, permanent: bool, blkno: uint32, fileno: uint32, special: SpecialArea, fakeLsn: uint64)
    requires Fits(pageSize, tagSize, |page|)
    requires EncryptorPreservesLength(encrypt) && DecryptorPreservesLength(decrypt) && Inverts(encrypt, decrypt, enc, dec)
    requires EncryptedPage(enc, encrypt, pageSize, tagSize, page, permanent, blkno, fileno, special, fakeLsn).Some?
    ensures var p := LsnUpdated(page, permanent, special, fakeLsn);
      var q := EncryptedPage(enc, encrypt, pageSize, tagSize, page, permanent, blkno, fileno, special, fakeLsn).value;
      var r := DecryptedPage(dec, decrypt, pageSize, tagSize, q, permanent, blkno, fileno);
      && r.Some?
      && r.value[..|page| - tagSize] == p[..|page| - tagSize]
      && r.value[|page| - tagSize..] == q[|page| - tagSize..]
  {
    var p := LsnUpdated(page, permanent, special, fakeLsn);
    var q := EncryptedPage(enc, encrypt, pageSize, tagSize, page, permanent, blkno, fileno, special, fakeLsn).value;
    DecryptOfEncrypted(enc, dec, encrypt, decrypt, pageSize, tagSize, page, permanent, blkno, fileno, special, fakeLsn);
    assert DecryptedPage(dec, decrypt, pageSize, tagSize, q, permanent, blkno, fileno).value
        == Splice(q, PageEncryptOffset, Region(p, pageSize));
    EncryptedPutBack(enc, encrypt, pageSize, tagSize, page, permanent, blkno, fileno, special, fakeLsn);
    SpliceKeepsFrom(q, PageEncryptOffset, Region(p, pageSize), |page| - tagSize);
  }

  /** Writing the plaintext region back over the encrypted page restores it up to the tag slot. */
  lemma EncryptedPutBack(enc: CipherCtx, encrypt: Encryptor, pageSize: nat, tagSize: nat, page: seq<byte>,
                         permanent: bool, blkno: uint32, fileno: uint32, special: SpecialArea, fakeLsn: uint64)
    requires Fits(pageSize, tagSize, |page|) && EncryptorPreservesLength(encrypt)
    requires EncryptedPage(enc, encrypt, pageSize, tagSize, page, permanent, blkno, fileno, special, fakeLsn).Some?
    ensures var p := LsnUpdated(page, permanent, special, fakeLsn);
      var q := EncryptedPage(enc, encrypt, pageSize, tagSize, page, permanent, blkno, fileno, special, fakeLsn).value;
      Splice(q, PageEncryptOffset, Region(p, pageSize))[..|page| - tagSize] == p[..|page| - tagSize]
  {
    var p := LsnUpdated(page, permanent, special, fakeLsn);
    var q := EncryptedPage(enc, encrypt, pageSize, tagSize, page, permanent, blkno, fileno, special, fakeLsn).value;
    EncryptedAgreesOutside(enc, encrypt, pageSize, tagSize, page, permanent, blkno, fileno, special, fakeLsn, 0, PageEncryptOffset);
    EncryptedAgreesOutside(enc, encrypt, pageSize, tagSize, page, permanent, blkno, fileno, special, fakeLsn,
                           PageEncryptOffset + pageSize, |page| - tagSize);
    RegionPutBack(q, p, pageSize, tagSize);
  }

  /**
   * Writing `p`'s region over `q` gives `p` up to the tag slot when the two
   * agree on the header prefix and between the region and the tag slot.
   */
  lemma RegionPutBack(q: seq<byte>, p: seq<byte>, pageSize: nat, tagSize: nat)
    requires |q| == |p| && Fits(pageSize, tagSize, |p|)
    requires q[0..PageEncryptOffset] == p[0..PageEncryptOffset]
    requires q[PageEncryptOffset + pageSize..|p| - tagSize] == p[PageEncryptOffset + pageSize..|p| - tagSize]
    ensures Splice(q, PageEncryptOffset, Region(p, pageSize))[..|p| - tagSize] == p[..|p| - tagSize]
  {
    var t := Splice(q, PageEncryptOffset, Region(p, pageSize));
    forall i | 0 <= i < |p| - tagSize
      ensures t[i] == p[i]
    {
      if i < PageEncryptOffset {
        assert q[i] == q[0..PageEncryptOffset][i];
      } else if PageEncryptOffset + pageSize <= i {
        assert q[i] == q[PageEncryptOffset + pageSize..|p| - tagSize][i - (PageEncryptOffset + pageSize)];
        assert p[i] == p[PageEncryptOffset + pageSize..|p| - tagSize][i - (PageEncryptOffset + pageSize)];
      }
    }
  }

  /** A splice leaves every byte from its end onwards alone. */
  lemma SpliceKeepsFrom(s: seq<byte>, at: nat, b: seq<byte>, from: nat)
    requires at + |b| <= from <= |s|
    ensures Splice(s, at, b)[from..] == s[from..]
  {
    var t := Splice(s, at, b);
    assert forall i :: 0 <= i < |s| - from ==> t[from..][i] == t[from + i];
  }

  // ---------------------------------------------------------------------
  // The module state and the operations on it
  // ---------------------------------------------------------------------

  /**
   * The static state of bufenc.c: the IV buffer, the AAD struct, the method
   * with its tag and region sizes, and the two cipher contexts.
   */
  class BufferEncryption {
    const iv: array<byte>            // buf_encryption_iv
    var authData: AuthData           // auth_data
    var encMethod: int                 // file_encryption_method
    var tagSize: nat                 // file_encryption_tag_size
    var pageSize: nat                // file_encryption_page_size
    var encCtx: Option<CipherCtx>    // BufEncCtx
    var decCtx: Option<CipherCtx>    // BufDecCtx

    ghost predicate Valid()
      reads this
    {
      iv.Length == BUFENC_IV_SIZE
    }

    /** The state before `InitializeBufferEncryption`. */
    constructor ()
      ensures Valid() && fresh(iv)
      ensures iv[..] == seq(BUFENC_IV_SIZE, _ => 0)
      ensures authData == AuthData(seq(PageEncryptOffset, _ => 0), 0, 0)
      ensures encMethod == DISABLED_ENCRYPTION_METHOD && tagSize == 0 && pageSize == 0
      ensures encCtx.None? && decCtx.None?
    {
      iv := new byte[BUFENC_IV_SIZE](_ => 0);
      authData := AuthData(seq(PageEncryptOffset, _ => 0), 0, 0);
      encMethod := DISABLED_ENCRYPTION_METHOD;
      tagSize, pageSize := 0, 0;
      encCtx, decCtx := None, None;
      new;
      assert iv[..] == seq(BUFENC_IV_SIZE, _ => 0);
    }

    /**
     * `InitializeBufferEncryption` in the server: nothing happens for the
     * disabled method; otherwise the method is recorded and both contexts
     * are created from the relation key, either failure being an ERROR,
     * and the tag and region sizes are taken from the method.
     */
    method InitializeBufferEncryption(initMethod: int, key: seq<byte>, info: MethodInfo, create: CtxFactory)
      returns (err: Option<EncError>)
      requires Valid()
      modifies this
      ensures Valid() && authData == old(authData)
      ensures initMethod == DISABLED_ENCRYPTION_METHOD ==> err.None? && unchanged(this)
      ensures initMethod != DISABLED_ENCRYPTION_METHOD ==>
        && encMethod == initMethod
        && encCtx == create(info.algorithm, key, info.blockLength, true)
        && (encCtx.None? ==> err == Some(CannotInitEncryption(initMethod, |key|)))
        && (encCtx.Some? ==> decCtx == create(info.algorithm, key, info.blockLength, false))
        && (encCtx.Some? && decCtx.None? ==> err == Some(CannotInitDecryption))
        && (encCtx.None? ==> decCtx == old(decCtx))
        && (encCtx.Some? && decCtx.Some? ==> err.None? && tagSize == info.tagSize && pageSize == info.pageSize)
        && (err.Some? ==> tagSize == old(tagSize) && pageSize == old(pageSize))
    {
      if initMethod == DISABLED_ENCRYPTION_METHOD {
        return None;
      }
      encMethod := initMethod;
      encCtx := create(info.algorithm, key, info.blockLength, true);
      if encCtx.None? {
        return Some(CannotInitEncryption(encMethod, |key|));
      }
      decCtx := create(info.algorithm, key, info.blockLength, false);
      if decCtx.None? {
        return Some(CannotInitDecryption);
      }
      tagSize := info.tagSize;
      pageSize := info.pageSize;
      return None;
    }

    /**
     * `set_buffer_encryption_iv`: the buffer is zeroed, then filled through
     * a moving position with the LSN bytes, the block number and, for a
     * non-permanent relation, the marker.
     */
    method SetBufferEncryptionIv(page: array<byte>, blkno: uint32, permanent: bool)
      requires Valid() && page.Length >= PageEncryptOffset && page != iv
      modifies iv
      ensures iv[..] == PageIv(page[..], blkno, permanent)
    {
      FillZero(iv);
      var p := 0;
      CopyInto(iv, p, page[..LSN_SIZE]);
      p := p + LSN_SIZE;
      CopyInto(iv, p, LE32(blkno));
      p := p + 4;
      if !permanent {
        iv[p] := NON_PERMANENT_MARK;
        p := p + 1;
      }
      assert iv[..] == PageIv(page[..], blkno, permanent) by {
        assert page[..][..LSN_SIZE] == page[..LSN_SIZE];
      }
    }

    /** `setup_additional_authenticated_data`: the struct is filled from the page and its location. */
    method SetupAdditionalAuthenticatedData(page: array<byte>, blkno: uint32, fileno: uint32)
      requires page.Length >= PageEncryptOffset
      modifies this
      ensures authData == PageAad(page[..], blkno, fileno)
      ensures encMethod == old(encMethod) && tagSize == old(tagSize) && pageSize == old(pageSize)
      ensures encCtx == old(encCtx) && decCtx == old(decCtx)
    {
      authData := AuthData(page[..PageEncryptOffset], fileno, blkno);
    }

    /**
     * `EncryptPage`: the LSN step (`fakeLsn` is `LSNForEncryption(false)`),
     * the IV, the AAD when the method has a tag, then the primitive; its
     * failure is an ERROR, its success rewrites the region and the tag slot.
     */
    method EncryptPage(page: array<byte>, permanent: bool, blkno: uint32, fileno: uint32,
                       special: SpecialArea, fakeLsn: uint64, encrypt: Encryptor) returns (err: Option<EncError>)
      requires Valid() && encCtx.Some? && page != iv
      requires Fits(pageSize, tagSize, page.Length) && EncryptorPreservesLength(encrypt)
      requires PageLsn(page[..]) != InvalidXLogRecPtr || !permanent
      modifies this, iv, page
      ensures Valid()
      ensures encMethod == old(encMethod) && tagSize == old(tagSize) && pageSize == old(pageSize)
      ensures encCtx == old(encCtx) && decCtx == old(decCtx)
      ensures var p := LsnUpdated(old(page[..]), permanent, special, fakeLsn);
        && iv[..] == PageIv(p, blkno, permanent)
        && authData == (if tagSize > 0 then PageAad(p, blkno, fileno) else old(authData))
      ensures var r := EncryptedPage(encCtx.value, encrypt, pageSize, tagSize, old(page[..]), permanent, blkno, fileno, special, fakeLsn);
        && (r.None? ==> err == Some(CannotEncrypt(blkno)) && page[..] == LsnUpdated(old(page[..]), permanent, special, fakeLsn))
        && (r.Some? ==> err.None? && page[..] == r.value)
    {
      var gist := IsGistPageOrSimilar(page[..], special);
      if !permanent && !gist {
        CopyInto(page, 0, LsnBytes(fakeLsn));
      }
      err := SealPage(page, permanent, blkno, fileno, encrypt);
    }

    /**
     * The part of `EncryptPage` after the LSN step: IV, AAD when there is a
     * tag, the primitive, then the region and the tag slot written back.
     */
    method SealPage(page: array<byte>, permanent: bool, blkno: uint32, fileno: uint32, encrypt: Encryptor)
      returns (err: Option<EncError>)
      requires Valid() && encCtx.Some? && page != iv
      requires Fits(pageSize, tagSize, page.Length) && EncryptorPreservesLength(encrypt)
      modifies this, iv, page
      ensures Valid()
      ensures encMethod == old(encMethod) && tagSize == old(tagSize) && pageSize == old(pageSize)
      ensures encCtx == old(encCtx) && decCtx == old(decCtx)
      ensures iv[..] == PageIv(old(page[..]), blkno, permanent)
      ensures authData == (if tagSize > 0 then PageAad(old(page[..]), blkno, fileno) else old(authData))
      ensures var r := SealedPage(encCtx.value, encrypt, pageSize, tagSize, old(page[..]), blkno, fileno, permanent);
        && (r.None? ==> err == Some(CannotEncrypt(blkno)) && page[..] == old(page[..]))
        && (r.Some? ==> err.None? && page[..] == r.value)
    {
      ghost var p := page[..];
      var aad := SetupIvAndAad(page, permanent, blkno, fileno);
      var input := page[PageEncryptOffset..PageEncryptOffset + pageSize];
      assert input == Region(p, pageSize);
      var sealed := encrypt(encCtx.value, input, iv[..], aad, tagSize);
      assert sealed == Seal(encCtx.value, encrypt, pageSize, tagSize, p, blkno, fileno, permanent);
      if sealed.None? {
        return Some(CannotEncrypt(blkno));
      }
      WriteSealed(page, tagSize, sealed.value);
      return None;
    }

    /** The IV, and the AAD when the method has a tag, as both `EncryptPage` and `DecryptPage` set them up. */
    method SetupIvAndAad(page: array<byte>, permanent: bool, blkno: uint32, fileno: uint32) returns (aad: seq<byte>)
      requires Valid() && page.Length >= PageEncryptOffset && page != iv
      modifies this, iv
      ensures Valid()
      ensures encMethod == old(encMethod) && tagSize == old(tagSize) && pageSize == old(pageSize)
      ensures encCtx == old(encCtx) && decCtx == old(decCtx)
      ensures iv[..] == PageIv(page[..], blkno, permanent)
      ensures authData == (if tagSize > 0 then PageAad(page[..], blkno, fileno) else old(authData))
      ensures aad == AadFor(page[..], blkno, fileno, tagSize)
    {
      SetBufferEncryptionIv(page, blkno, permanent);
      aad := [];
      if tagSize > 0 {
        SetupAdditionalAuthenticatedData(page, blkno, fileno);
        aad := AadBytes(authData);
      }
    }

    /**
     * `DecryptPage`: the IV and, when the method has a tag, the AAD are
     * rebuilt from the page as it is, the tag is read from its slot, and
     * the region is replaced by the primitive's output; its failure is an
     * ERROR.  The primitive is all-or-nothing here, so a failure leaves the
     * page alone (see README on the cipher).
     */
    method DecryptPage(page: array<byte>, permanent: bool, blkno: uint32, fileno: uint32, decrypt: Decryptor)
      returns (err: Option<EncError>)
      requires Valid() && decCtx.Some? && page != iv
      requires Fits(pageSize, tagSize, page.Length) && DecryptorPreservesLength(decrypt)
      modifies this, iv, page
      ensures Valid()
      ensures encMethod == old(encMethod) && tagSize == old(tagSize) && pageSize == old(pageSize)
      ensures encCtx == old(encCtx) && decCtx == old(decCtx)
      ensures iv[..] == PageIv(old(page[..]), blkno, permanent)
      ensures authData == (if tagSize > 0 then PageAad(old(page[..]), blkno, fileno) else old(authData))
      ensures var r := DecryptedPage(decCtx.value, decrypt, pageSize, tagSize, old(page[..]), permanent, blkno, fileno);
        && (r.None? ==> err == Some(CannotDecrypt(blkno)) && page[..] == old(page[..]))
        && (r.Some? ==> err.None? && page[..] == r.value)
    {
      ghost var p := page[..];
      var aad := SetupIvAndAad(page, permanent, blkno, fileno);
      var tag: seq<byte> := if tagSize > 0 then page[page.Length - tagSize..] else [];
      assert tag == (if tagSize > 0 then TagSlot(p, tagSize) else []);
      var input := page[PageEncryptOffset..PageEncryptOffset + pageSize];
      assert input == Region(p, pageSize);
      var plain := decrypt(decCtx.value, input, iv[..], aad, tag);
      assert DecryptedPage(decCtx.value, decrypt, pageSize, tagSize, p, permanent, blkno, fileno)
          == (if plain.None? then None else Some(Splice(p, PageEncryptOffset, plain.value)));
      if plain.None? {
        return Some(CannotDecrypt(blkno));
      }
      CopyInto(page, PageEncryptOffset, plain.value);
      return None;
    }
  }

  /** `MemSet(buf, 0, len)`. */
  method FillZero(a: array<byte>)
    modifies a
    ensures a[..] == seq(a.Length, _ => 0)
  {
    var k := 0;
    while k < a.Length
      invariant 0 <= k <= a.Length
      invariant forall i :: 0 <= i < k ==> a[i] == 0
    {
      a[k] := 0;
      k := k + 1;
    }
  }

  /** The region and the tag slot of `page` overwritten by the primitive's output. */
  method WriteSealed(page: array<byte>, tagSize: nat, sealed: Sealed)
    requires PageEncryptOffset + |sealed.text| + tagSize <= page.Length && |sealed.tag| == tagSize
    modifies page
    ensures page[..] == Splice(Splice(old(page[..]), PageEncryptOffset, sealed.text), page.Length - tagSize, sealed.tag)
  {
    CopyInto(page, PageEncryptOffset, sealed.text);
    CopyInto(page, page.Length - tagSize, sealed.tag);
  }

  /** `memcpy(a + at, b, |b|)`. */
  method CopyInto(a: array<byte>, at: nat, b: seq<byte>)
    requires at + |b| <= a.Length
    modifies a
    ensures a[..] == Splice(old(a[..]), at, b)
  {
    var k := 0;
    while k < |b|
      invariant 0 <= k <= |b|
      invariant forall i :: 0 <= i < a.Length ==> a[i] == if at <= i < at + k then b[i - at] else old(a[i])
    {
      a[at + k] := b[k];
      k := k + 1;
    }
  }
}
