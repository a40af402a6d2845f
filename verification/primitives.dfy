/**
  The library routines the codecs call but that this model keeps abstract:
  gzip compression (RFC 1952 framing over RFC 1951 DEFLATE) and AES-128 in ECB
  mode (FIPS 197 with the ECB mode of NIST SP 800-38A section 6.1).  They are
  passed in as function values; `Lawful` collects the only facts the codecs
  rely on.
 */
module Primitives {

  import opened Wrappers
  import opened Bytes

  datatype Primitives = Primitives(
    /** `gzip.compress(data, mtime=39)` */
    gzip: Bytes -> Bytes,
    /** `zlib.decompress(data, wbits=16+MAX_WBITS)`; `None` is `zlib.error` */
    gunzip: Bytes -> Option<Bytes>,
    /** `AES.new(key, AES.MODE_ECB).encrypt(data)` */
    aesEcbEncrypt: (Bytes, Bytes) -> Bytes,
    /** `AES.new(key, AES.MODE_ECB).decrypt(data)` */
    aesEcbDecrypt: (Bytes, Bytes) -> Bytes)

  /** The DT scheme's fixed key, the bytes of the ASCII text `project_diva.bin`. */
  function DtKey(): (k: Bytes)
    ensures |k| == 16
  {
    [0x70, 0x72, 0x6f, 0x6a, 0x65, 0x63, 0x74, 0x5f, 0x64, 0x69, 0x76, 0x61, 0x2e, 0x62, 0x69, 0x6e]
  }

  /**
    Decompression ignores whatever follows the compressed stream (zlib stops at the
    gzip trailer), and ECB encryption of whole blocks keeps the length and is undone
    by decryption under the same key.
   */
  ghost predicate Lawful(p: Primitives) {
    && (forall x: Bytes, junk: Bytes :: p.gunzip(p.gzip(x) + junk) == Some(x))
    && (forall key: Bytes, x: Bytes :: |x| % 16 == 0 ==> |p.aesEcbEncrypt(key, x)| == |x|)
    && (forall key: Bytes, x: Bytes :: |x| % 16 == 0 ==> p.aesEcbDecrypt(key, p.aesEcbEncrypt(key, x)) == x)
  }
}
