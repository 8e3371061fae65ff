/**
 * The HMAC signer/verifier and key holder (`HmacService`).
 *
 * A token is `digest(key + T) + ":" + T`, where `T` is Unix seconds as text.
 * Checking a token runs a chain of guards, each of which rejects with
 * `false`; the only hard failure is an unset private key, and it can arise
 * only at the final comparison. The digest primitive, the clocks and the
 * HTTP request come from outside and are parameters here.
 */
module HmacServices {

  import opened Wrappers
  import opened Php
  import opened Timestamp

  /** Separator between the signature and the timestamp in a token. */
  const Delimiter: char := ':'

  /** Name of the environment variable the key-rotation command rewrites. */
  const PrivateKeyEnv: string := "HMAC_PRIVATE_KEY"

  /**
   * What PHP's `hash($algo, $message)` returns: lowercase hexadecimal text.
   * The shortest digests it offers (crc32, adler32, fnv132, joaat) have 8
   * characters.
   */
  predicate IsHexDigest(s: string) {
    |s| >= 8 && forall i :: 0 <= i < |s| ==> s[i] in "0123456789abcdef"
  }

  type HexDigest = s: string | IsHexDigest(s) witness "00000000"

  /** The digest primitive: algorithm name and message to a hex digest. Nothing else is assumed of it. */
  type DigestFunction = (string, string) -> HexDigest

  /** `HmacException`: the private key is not set. */
  datatype HmacError = KeyUnset

  datatype Result<T> = Ok(value: T) | Err(error: HmacError)

  /** What the service reads from a request: the named input field and the named header, either possibly absent. */
  datatype Request = Request(field: Option<string>, header: Option<string>)

  /** The two parts of a token that matter. */
  datatype Token = Token(signature: string, date: string)

  /** The transport form of a token: signature, delimiter, date. */
  function EncodeToken(t: Token): string {
    t.signature + [Delimiter] + t.date
  }

  /**
   * `getSignatureFromRequest`: the field value if it is truthy, otherwise the
   * header value if it is truthy, otherwise nothing.
   */
  function SelectToken(request: Request): (r: Option<string>)
    ensures r.Some? ==> Truthy(r.value)
    ensures request.field.Some? && Truthy(request.field.value) ==> r == request.field
    ensures !(request.field.Some? && Truthy(request.field.value)) ==>
              r == (if request.header.Some? && Truthy(request.header.value) then request.header else None)
  {
    if request.field.Some? && Truthy(request.field.value) then request.field
    else if request.header.Some? && Truthy(request.header.value) then request.header
    else None
  }

  /**
   * Lines 131-136 of `checkSignature`: explode on the delimiter, take the
   * first two chunks, and reject when the second is missing or either is
   * PHP-falsy.
   */
  function DecodeToken(text: string): Option<Token> {
    var chunks := Explode(Delimiter, text);
    if |chunks| < 2 then None
    else if !Truthy(chunks[0]) || !Truthy(chunks[1]) then None
    else Some(Token(chunks[0], chunks[1]))
  }

  /** A hex digest is PHP-truthy and never holds the token delimiter. */
  lemma DigestIsTokenSafe(s: HexDigest)
    ensures Truthy(s) && Delimiter !in s
  {
    assert s[0] in "0123456789abcdef";
    assert |s| >= 2;
  }

  /**
   * A text decodes to a token exactly when both parts are truthy and free of
   * the delimiter and the text is the encoded token, possibly followed by a
   * delimiter and anything at all.
   */
  lemma DecodeTokenIff(text: string, t: Token)
    ensures DecodeToken(text) == Some(t) <==>
              && Truthy(t.signature) && Truthy(t.date)
              && Delimiter !in t.signature && Delimiter !in t.date
              && (text == EncodeToken(t) || EncodeToken(t) + [Delimiter] <= text)
  {
    var e := EncodeToken(t);
    if DecodeToken(text) == Some(t) {
      var c := Explode(Delimiter, text);
      assert c[0] == t.signature && c[1] == t.date;
      assert Delimiter !in c[0] && Delimiter !in c[1];
      assert text == c[0] + [Delimiter] + Implode(Delimiter, c[1..]);
      var tail := c[1..];
      assert tail[0] == t.date;
      if |c| > 2 {
        var rest := Implode(Delimiter, tail[1..]);
        assert text == e + [Delimiter] + rest;
        assert text[..|e| + 1] == e + [Delimiter];
      }
    }
    if && Truthy(t.signature) && Truthy(t.date)
       && Delimiter !in t.signature && Delimiter !in t.date
    {
      if text == e {
        ExplodeCons(Delimiter, t.signature, t.date);
        ExplodeSingle(Delimiter, t.date);
      } else if e + [Delimiter] <= text {
        var rest := text[|e| + 1..];
        assert text == t.signature + [Delimiter] + (t.date + [Delimiter] + rest);
        ExplodeCons(Delimiter, t.signature, t.date + [Delimiter] + rest);
        ExplodeCons(Delimiter, t.date, rest);
      }
    }
  }

  /** Chunks after the second one are ignored. */
  lemma DecodeIgnoresExtraChunks(signature: string, date: string, rest: string)
    requires Delimiter !in signature && Delimiter !in date
    ensures DecodeToken(signature + [Delimiter] + date + [Delimiter] + rest)
         == DecodeToken(signature + [Delimiter] + date)
  {
    var text := signature + [Delimiter] + date + [Delimiter] + rest;
    assert text == signature + [Delimiter] + (date + [Delimiter] + rest);
    ExplodeCons(Delimiter, signature, date + [Delimiter] + rest);
    ExplodeCons(Delimiter, date, rest);
    ExplodeCons(Delimiter, signature, date);
    ExplodeSingle(Delimiter, date);
  }

  /** A text without the delimiter, or whose signature or date part is "" or "0", is rejected. */
  lemma DecodeRejectsMalformed(text: string)
    ensures Delimiter !in text ==> DecodeToken(text) == None
    ensures forall signature, rest ::
              text == signature + [Delimiter] + rest && Delimiter !in signature && !Truthy(signature)
              ==> DecodeToken(text) == None
    ensures forall signature, date ::
              && Delimiter !in signature && Delimiter !in date && !Truthy(date)
              && (text == signature + [Delimiter] + date || signature + [Delimiter] + date + [Delimiter] <= text)
              ==> DecodeToken(text) == None
  {
    if Delimiter !in text {
      ExplodeSingle(Delimiter, text);
    }
    forall signature, rest | text == signature + [Delimiter] + rest && Delimiter !in signature && !Truthy(signature)
      ensures DecodeToken(text) == None
    {
      ExplodeCons(Delimiter, signature, rest);
    }
    forall signature, date |
      && Delimiter !in signature && Delimiter !in date && !Truthy(date)
      && (text == signature + [Delimiter] + date || signature + [Delimiter] + date + [Delimiter] <= text)
      ensures DecodeToken(text) == None
    {
      var e := signature + [Delimiter] + date;
      if text == e {
        ExplodeCons(Delimiter, signature, date);
        ExplodeSingle(Delimiter, date);
      } else {
        var rest := text[|e| + 1..];
        assert text == signature + [Delimiter] + (date + [Delimiter] + rest);
        ExplodeCons(Delimiter, signature, date + [Delimiter] + rest);
        ExplodeCons(Delimiter, date, rest);
      }
    }
  }

  /**
   * The service. `algo`, `liveTime` and `field` are set once by the
   * constructor from configuration; `privateKey` is the one piece of state
   * that changes, when a new key is generated.
   */
  class HmacService {
    const algo: string
    var privateKey: Option<string>
    const liveTime: int
    const field: string
    const digest: DigestFunction

    /** Configuration comes in as parameters (`config/hmac.php` defaults: "md2", no key, 60, "hmac_signature"). */
    constructor (algo: string, privateKey: Option<string>, liveTime: int, field: string, digest: DigestFunction)
      ensures this.algo == algo && this.privateKey == privateKey
      ensures this.liveTime == liveTime && this.field == field && this.digest == digest
    {
      this.algo := algo;
      this.privateKey := privateKey;
      this.liveTime := liveTime;
      this.field := field;
      this.digest := digest;
    }

    /** `hash`: the configured algorithm applied to the message. */
    function Hash(message: string): HexDigest {
      digest(algo, message)
    }

    /** `getPrivateKey`: the stored key, or `KeyUnset` when there is none. */
    function GetPrivateKey(): (r: Result<string>)
      reads this
      ensures r.Ok? <==> privateKey.Some?
      ensures r.Ok? ==> privateKey == Some(r.value)
    {
      match privateKey
      case None => Err(KeyUnset)
      case Some(key) => Ok(key)
    }

    /** `signMessage`: the digest of the key followed by the message; fails exactly when no key is set. */
    function SignMessage(message: string): (r: Result<HexDigest>)
      reads this
      ensures r.Err? <==> privateKey.None?
      ensures r.Ok? ==> r.value == Hash(privateKey.value + message)
    {
      match GetPrivateKey()
      case Err(e) => Err(e)
      case Ok(key) => Ok(Hash(key + message))
    }

    /**
     * `makeSignature` at second `now`: the digest of key and `T`, then ":",
     * then `T`, where `T` is `now` as decimal text.
     */
    function MakeSignature(now: int): (r: Result<string>)
      reads this
      ensures r.Err? <==> privateKey.None?
      ensures r.Ok? ==>
                r.value == EncodeToken(Token(Hash(privateKey.value + DecimalText(now)), DecimalText(now)))
    {
      var time := DecimalText(now);
      match SignMessage(time)
      case Err(e) => Err(e)
      case Ok(signature) => Ok(signature + [Delimiter] + time)
    }

    /**
     * The first five guards of `checkSignature` (lines 126-144): a truthy
     * token was sent, it decodes, its date parses, and the parsed second
     * lies strictly within `liveTime` of `now` in either direction. The
     * result is the decoded token.
     */
    function AdmittedToken(now: int, request: Request): (r: Option<Token>)
      ensures r.Some? ==>
                && SelectToken(request).Some?
                && DecodeToken(SelectToken(request).value) == r
                && ParseTimestamp(r.value.date).Some?
                && Abs(now - ParseTimestamp(r.value.date).value) < liveTime
    {
      match SelectToken(request)
      case None => None
      case Some(text) =>
        match DecodeToken(text)
        case None => None
        case Some(token) =>
          match ParseTimestamp(token.date)
          case None => None
          case Some(ts) =>
            if Abs(now - ts) >= liveTime then None else Some(token)
    }

    /**
     * `checkSignature` at second `now`. A token that fails a guard is
     * rejected with `false` whether or not a key is set; `KeyUnset` arises
     * only for a token that passed them all; acceptance needs the signature
     * to equal the digest of the key followed by the date text as received.
     */
    function CheckSignature(now: int, request: Request): (r: Result<bool>)
      reads this
      ensures r.Err? <==> privateKey.None? && AdmittedToken(now, request).Some?
      ensures r == Ok(true) ==>
                && privateKey.Some? && AdmittedToken(now, request).Some?
                && AdmittedToken(now, request).value.signature
                   == Hash(privateKey.value + AdmittedToken(now, request).value.date)
    {
      match AdmittedToken(now, request)
      case None => Ok(false)
      case Some(token) =>
        match SignMessage(token.date)
        case Err(e) => Err(e)
        case Ok(expected) => Ok(token.signature == expected)
    }

    /**
     * `generatePrivateKey` from a sample of the high-resolution clock: the
     * new key is the algorithm name, ":", and the digest of the sample.
     * Nothing else changes; the service itself is returned.
     */
    method GeneratePrivateKey(microtime: string) returns (self: HmacService)
      modifies this
      ensures self == this
      ensures privateKey == Some(algo + [Delimiter] + Hash(microtime))
      ensures GetPrivateKey().Ok?
    {
      privateKey := Some(algo + [Delimiter] + Hash(microtime));
      self := this;
    }
  }

  /**
   * A freshly made token, carried in the request, is judged at second `now`
   * by the window alone: it is accepted iff it was made strictly less than
   * `liveTime` seconds before or after `now`. (Second 0 is excluded: its
   * date text "0" is PHP-falsy.)
   */
  lemma FreshTokenWindow(svc: HmacService, signedAt: int, now: int, request: Request)
    requires svc.privateKey.Some? && signedAt != 0
    requires SelectToken(request) == Some(svc.MakeSignature(signedAt).value)
    ensures svc.CheckSignature(now, request) == Ok(Abs(now - signedAt) < svc.liveTime)
  {
    var time := DecimalText(signedAt);
    var t := Token(svc.Hash(svc.privateKey.value + time), time);
    DecimalTextShape(signedAt);
    DecodeTokenIff(EncodeToken(t), t);
    ParseDecimalText(signedAt);
  }

  /** Round trip: with `liveTime > 0`, the token made at `now` is accepted at `now`, sent as field or as header. */
  lemma RoundTrip(svc: HmacService, now: int, header: Option<string>)
    requires svc.privateKey.Some? && svc.liveTime > 0 && now != 0
    ensures svc.CheckSignature(now, Request(Some(svc.MakeSignature(now).value), header)) == Ok(true)
    ensures svc.CheckSignature(now, Request(None, Some(svc.MakeSignature(now).value))) == Ok(true)
  {
    var token := svc.MakeSignature(now).value;
    DecimalTextShape(now);
    assert Truthy(token) by {
      assert |token| > |svc.Hash(svc.privateKey.value + DecimalText(now))|;
    }
    FreshTokenWindow(svc, now, now, Request(Some(token), header));
    FreshTokenWindow(svc, now, now, Request(None, Some(token)));
  }

  /** A token made at second 0 carries the date "0", which is PHP-falsy, so it is never accepted. */
  lemma EpochTokenRejected(svc: HmacService, now: int, request: Request)
    requires svc.privateKey.Some?
    requires SelectToken(request) == Some(svc.MakeSignature(0).value)
    ensures svc.CheckSignature(now, request) == Ok(false)
  {
    var signature := svc.Hash(svc.privateKey.value + "0");
    assert DecimalText(0) == "0";
    DecodeRejectsMalformed(signature + [Delimiter] + "0");
  }

  /**
   * The window: a token whose date parses to `ts` is rejected iff
   * `|now - ts| >= liveTime` (both bounds exclusive, symmetric in past and
   * future); inside the window the verdict is the signature compared with
   * the digest of key and the date text as received.
   */
  lemma WindowDecides(svc: HmacService, now: int, request: Request, token: Token, ts: int)
    requires SelectToken(request).Some? && DecodeToken(SelectToken(request).value) == Some(token)
    requires ParseTimestamp(token.date) == Some(ts)
    ensures Abs(now - ts) >= svc.liveTime ==> svc.CheckSignature(now, request) == Ok(false)
    ensures Abs(now - ts) < svc.liveTime ==>
              svc.CheckSignature(now, request)
              == if svc.privateKey.None? then Err(KeyUnset)
                 else Ok(token.signature == svc.Hash(svc.privateKey.value + token.date))
  {
  }

  /** With a non-positive `liveTime` every request is rejected, and no `KeyUnset` is raised. */
  lemma NonPositiveLiveTimeRejectsAll(svc: HmacService, now: int, request: Request)
    requires svc.liveTime <= 0
    ensures svc.CheckSignature(now, request) == Ok(false)
  {
  }

  /**
   * Tamper rejection: if a token is accepted, replacing its signature part
   * by any other delimiter-free text, keeping everything after the first
   * delimiter, makes it rejected.
   */
  lemma TamperRejected(svc: HmacService, now: int, signature: string, forged: string, rest: string,
                       header: Option<string>)
    requires Delimiter !in signature && Delimiter !in forged && forged != signature
    requires svc.CheckSignature(now, Request(Some(signature + [Delimiter] + rest), header)) == Ok(true)
    ensures svc.CheckSignature(now, Request(Some(forged + [Delimiter] + rest), header)) == Ok(false)
  {
    ExplodeCons(Delimiter, signature, rest);
    ExplodeCons(Delimiter, forged, rest);
    if Truthy(forged) {
      assert Truthy(forged + [Delimiter] + rest) by {
        assert |forged + [Delimiter] + rest| >= 2;
      }
    }
  }

  /** Extra chunks after the date change nothing about the verdict. */
  lemma ExtraChunksIgnored(svc: HmacService, now: int, signature: string, date: string, rest: string,
                           header: Option<string>)
    requires Delimiter !in signature && Delimiter !in date
    requires Truthy(signature + [Delimiter] + date)
    ensures svc.CheckSignature(now, Request(Some(signature + [Delimiter] + date + [Delimiter] + rest), header))
         == svc.CheckSignature(now, Request(Some(signature + [Delimiter] + date), header))
  {
    DecodeIgnoresExtraChunks(signature, date, rest);
    assert Truthy(signature + [Delimiter] + date + [Delimiter] + rest) by {
      assert |signature + [Delimiter] + date + [Delimiter] + rest| >= 2;
    }
  }

  /** A malformed token (no delimiter, or an empty or "0" part) is rejected even when no key is set. */
  lemma MalformedRejected(svc: HmacService, now: int, request: Request)
    requires SelectToken(request).Some?
    ensures Delimiter !in SelectToken(request).value ==> svc.CheckSignature(now, request) == Ok(false)
    ensures forall signature, rest ::
              SelectToken(request).value == signature + [Delimiter] + rest
              && Delimiter !in signature && !Truthy(signature)
              ==> svc.CheckSignature(now, request) == Ok(false)
    ensures forall signature, date ::
              && Delimiter !in signature && Delimiter !in date && !Truthy(date)
              && (|| SelectToken(request).value == signature + [Delimiter] + date
                  || signature + [Delimiter] + date + [Delimiter] <= SelectToken(request).value)
              ==> svc.CheckSignature(now, request) == Ok(false)
  {
    DecodeRejectsMalformed(SelectToken(request).value);
  }

  /** A date that is not a timestamp is rejected even when no key is set. */
  lemma UnparsableDateRejected(svc: HmacService, now: int, request: Request, token: Token)
    requires SelectToken(request).Some? && DecodeToken(SelectToken(request).value) == Some(token)
    requires ParseTimestamp(token.date) == None
    ensures svc.CheckSignature(now, request) == Ok(false)
  {
  }

  /** Field precedence: a truthy field decides alone; a falsy or absent field defers to the header. */
  lemma FieldPrecedence(svc: HmacService, now: int, field: Option<string>, header: Option<string>)
    ensures field.Some? && Truthy(field.value) ==>
              svc.CheckSignature(now, Request(field, header)) == svc.CheckSignature(now, Request(field, None))
    ensures !(field.Some? && Truthy(field.value)) ==>
              svc.CheckSignature(now, Request(field, header)) == svc.CheckSignature(now, Request(None, header))
  {
  }
}
