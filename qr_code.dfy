/**
 * `QRCode.parse` (model/QRCode.kt): the text of a scanned QR code becomes a
 * pairing credential, the lock's address and the key to send to it, or null.
 *
 * URL parsing (okhttp's HttpUrl) and AES/CBC/PKCS5 decryption (javax.crypto)
 * are collaborators the model cannot see into; they are fields of a
 * `Platform` value, partial functions that answer `None` where the library
 * returns null or throws.
 */
module QRCodes {
  import opened Wrappers
  import opened Bytes
  import opened Sequences

  /** The only host whose URLs carry credentials. */
  const ISSUER_HOST := "pslock.ceclin.top"

  /** One `name=value` pair of a query; a bare `name` has no value. */
  datatype QueryPair = QueryPair(name: string, value: Option<string>)

  /** What the parser reads of an okhttp HttpUrl: its host and its query pairs in order. */
  datatype Url = Url(host: string, query: seq<QueryPair>)

  datatype Platform = Platform(
    /** okhttp `HttpUrl.parse`: `None` for text that is not an http or https URL. */
    parseUrl: string -> Option<Url>,
    /** `KeyProvider.AES_KEY`, which comes from a native library. */
    aesKey: seq<byte>,
    /** AES/CBC/PKCS5 decryption of (key, iv, ciphertext): `None` when `init` or `doFinal` throws. */
    decrypt: (seq<byte>, seq<byte>, seq<byte>) -> Option<seq<byte>>)

  /** A parsed credential: the lock's address and the base64url text of the key to send it. */
  datatype QRCode = QRCode(mac: string, key: string)

  /** okhttp `HttpUrl.queryParameter(name)`: the value of the first pair with that name. */
  function QueryParameter(url: Url, name: string): (r: Option<string>)
    ensures (forall i :: 0 <= i < |url.query| ==> url.query[i].name != name) ==> r.None?
    ensures r.Some? ==> exists i ::
      && 0 <= i < |url.query| && url.query[i] == QueryPair(name, r)
      && forall j :: 0 <= j < i ==> url.query[j].name != name
  {
    match FirstOf(url.query, (q: QueryPair) => q.name == name)
    case None => None
    case Some(q) => q.value
  }

  /** A repeated name answers with the value of its first pair: `?mac=A&mac=B` gives A. */
  lemma QueryParameterFirst(url: Url, name: string, i: nat)
    requires i < |url.query| && url.query[i].name == name
    requires forall j :: 0 <= j < i ==> url.query[j].name != name
    ensures QueryParameter(url, name) == url.query[i].value
  {
    FirstIndexAt(url.query, (q: QueryPair) => q.name == name, i);
  }

  /** The URL a text denotes, when it is one and its host is the issuer. */
  function IssuerUrl(p: Platform, text: string): (r: Option<Url>)
    ensures r.Some? <==> p.parseUrl(text).Some? && p.parseUrl(text).value.host == ISSUER_HOST
    ensures r.Some? ==> r == p.parseUrl(text)
  {
    match p.parseUrl(text)
    case Some(url) => if url.host == ISSUER_HOST then Some(url) else None
    case None => None
  }

  /** The `key` parameter decoded from base64: `None` when it is missing or not base64. */
  function Ciphertext(url: Url): Option<seq<byte>> {
    match QueryParameter(url, "key")
    case None => None
    case Some(text) => DecodeBase64(text)
  }

  /** The `iv` parameter decoded from hex: `None` when it is missing or not hex. */
  function InitVector(url: Url): Option<seq<byte>> {
    match QueryParameter(url, "iv")
    case None => None
    case Some(text) => DecodeHex(text)
  }

  /** The decrypted key a URL carries, when every step of the decryption succeeds. */
  function Plaintext(p: Platform, url: Url): Option<seq<byte>> {
    match (Ciphertext(url), InitVector(url))
    case (Some(ciphertext), Some(iv)) => p.decrypt(p.aesKey, iv, ciphertext)
    case _ => None
  }

  /** `QRCode.parse`: the credential a scanned text carries, if it carries one. */
  function Parse(p: Platform, content: Option<string>): (r: Option<QRCode>)
    ensures content.None? ==> r.None?
  {
    if content.None? then None
    else
      match IssuerUrl(p, content.value)
      case None => None
      case Some(url) =>
        match (QueryParameter(url, "mac"), Plaintext(p, url))
        case (Some(mac), Some(plain)) => Some(QRCode(mac, Base64Url(plain)))
        case _ => None
  }

  /**
   * A text is a credential exactly when it is a URL of the issuer that
   * carries `mac`, a base64 `key` and a hex `iv` that decrypt.
   */
  lemma ParseAccepts(p: Platform, text: string)
    ensures Parse(p, Some(text)).Some? <==>
      && IssuerUrl(p, text).Some?
      && QueryParameter(IssuerUrl(p, text).value, "mac").Some?
      && Plaintext(p, IssuerUrl(p, text).value).Some?
  {
  }

  /** A parsed credential's `mac` is the parameter as it stands, and its `key` decodes back to the plaintext. */
  lemma ParseCredential(p: Platform, text: string)
    requires Parse(p, Some(text)).Some?
    ensures IssuerUrl(p, text).Some?
    ensures var url, qr := IssuerUrl(p, text).value, Parse(p, Some(text)).value;
      && QueryParameter(url, "mac") == Some(qr.mac)
      && DecodeBase64(qr.key) == Plaintext(p, url)
      && DecodeBase64(qr.key).Some?
  {
    var url := IssuerUrl(p, text).value;
    Base64RoundTrip(Plaintext(p, url).value);
  }

  /** A URL of another host is never a credential, whatever it carries. */
  lemma ForeignHostRejected(p: Platform, text: string)
    requires p.parseUrl(text).Some? && p.parseUrl(text).value.host != ISSUER_HOST
    ensures Parse(p, Some(text)).None?
  {
  }

  /** Missing parameters, a key that is not base64, an iv that is not hex or a failing decryption all give `None`. */
  lemma MalformedCredentialRejected(p: Platform, text: string, url: Url)
    requires p.parseUrl(text) == Some(url)
    requires || QueryParameter(url, "mac").None?
             || QueryParameter(url, "key").None?
             || QueryParameter(url, "iv").None?
             || DecodeBase64(QueryParameter(url, "key").value).None?
             || DecodeHex(QueryParameter(url, "iv").value).None?
             || p.decrypt(p.aesKey, InitVector(url).value, Ciphertext(url).value).None?
    ensures Parse(p, Some(text)).None?
  {
  }
}
