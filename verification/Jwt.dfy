/**
  Issuing and validating compact tokens: header, claims and signature, each in base64url, joined
  by dots (section 7.1 of RFC 7515), with the time claims of sections 4.1.4 and 4.1.5 of RFC 7519.
  JSON text and HMAC-SHA256 are supplied by libraries and are parameters here.
 */
module Jwt {
  import opened Basics
  import opened Text
  import opened Base64Url

  type Int64 = x: int | -0x8000_0000_0000_0000 <= x < 0x8000_0000_0000_0000

  datatype Header = Header(alg: string, typ: string)

  datatype Claims = Claims(
    subject: string, role: string, issuedAt: Int64, expiresAt: Int64, notBefore: Int64, issuer: string, jti: string)

  /** The library operations: JSON text of the two objects, reading it back, and the keyed hash. */
  datatype Library = Library(
    headerText: Header -> seq<Byte>,
    parseHeader: seq<Byte> -> Option<Header>,
    claimsText: Claims -> seq<Byte>,
    parseClaims: seq<Byte> -> Option<Claims>,
    mac: (string, string) -> seq<Byte>)
  {
    /** Reading back what was written gives the same object. */
    ghost predicate Faithful() {
      && (forall h :: parseHeader(headerText(h)) == Some(h))
      && (forall c :: parseClaims(claimsText(c)) == Some(c))
    }
  }

  // ----- Issuing -----

  /** The Unix second of a stamp in nanoseconds. */
  function Unix(stamp: int): int {
    stamp / SECOND
  }

  predicate Representable(stamp: int) {
    -0x8000_0000_0000_0000 <= Unix(stamp) < 0x8000_0000_0000_0000
  }

  function ClaimsFor(subject: string, role: string, issuer: string, duration: int, stamp: int): Claims
    requires Representable(stamp) && Representable(stamp + duration)
  {
    Claims(subject, role, Unix(stamp), Unix(stamp + duration), Unix(stamp), issuer, "")
  }

  function SigningInput(header: string, claims: string): string {
    header + "." + claims
  }

  /** Signs a header and claims under the secret. */
  function Sign(lib: Library, secret: string, header: Header, claims: Claims): string {
    var input := SigningInput(RawEncode(lib.headerText(header)), RawEncode(lib.claimsText(claims)));
    input + "." + RawEncode(lib.mac(secret, input))
  }

  function CreateJWT(lib: Library, secret: string, subject: string, role: string, issuer: string,
                     duration: int, stamp: int): string
    requires Representable(stamp) && Representable(stamp + duration)
  {
    Sign(lib, secret, Header("HS256", "JWT"), ClaimsFor(subject, role, issuer, duration, stamp))
  }

  // ----- Validating -----

  datatype Error =
    | BadFormat | BadHeaderEncoding | BadHeader | NoneNotPermitted | UnsupportedAlgorithm
    | BadSignatureEncoding | BadSignature | BadClaimsEncoding | BadClaims
    | Expired | NotYetValid | WrongIssuer | NoSubject

  function ValidateJWT(lib: Library, token: string, secret: string, expectedIssuer: string, now: int)
    : Result<Claims, Error>
  {
    var parts := Split(token, '.');
    if |parts| != 3 then Err(BadFormat)
    else ValidateParts(lib, parts[0], parts[1], parts[2], secret, expectedIssuer, now)
  }

  function ValidateParts(lib: Library, h: string, p: string, g: string,
                         secret: string, expectedIssuer: string, now: int)
    : Result<Claims, Error>
  {
    var headerJSON := Decode(h);
    if headerJSON.None? then Err(BadHeaderEncoding) else
    var header := lib.parseHeader(headerJSON.value);
    if header.None? then Err(BadHeader) else
    if Lower(header.value.alg) == "none" then Err(NoneNotPermitted) else
    if header.value.alg != "HS256" then Err(UnsupportedAlgorithm) else
    var signature := Decode(g);
    if signature.None? then Err(BadSignatureEncoding) else
    if signature.value != lib.mac(secret, SigningInput(h, p)) then Err(BadSignature) else
    var claimsJSON := Decode(p);
    if claimsJSON.None? then Err(BadClaimsEncoding) else
    var claims := lib.parseClaims(claimsJSON.value);
    if claims.None? then Err(BadClaims) else
    CheckClaims(claims.value, expectedIssuer, now)
  }

  function CheckClaims(claims: Claims, expectedIssuer: string, now: int): Result<Claims, Error> {
    if claims.expiresAt > 0 && now > claims.expiresAt then Err(Expired)
    else if claims.notBefore > 0 && now < claims.notBefore then Err(NotYetValid)
    else if expectedIssuer != "" && claims.issuer != expectedIssuer then Err(WrongIssuer)
    else if claims.subject == "" then Err(NoSubject)
    else Ok(claims)
  }

  // ----- Framing -----

  lemma NoDot(s: string)
    requires AllInAlphabet(s)
    ensures '.' !in s
  {
    assert !InAlphabet('.');
  }

  /** Three pieces without dots, and no other three, make a given token. */
  lemma ThreeParts(token: string, h: string, p: string, g: string)
    requires '.' !in h && '.' !in p && '.' !in g
    ensures Split(token, '.') == [h, p, g] <==> token == SigningInput(h, p) + "." + g
  {
    SplitIsUnique(token, '.', [h, p, g]);
    assert [h, p, g][1..] == [p, g] && [p, g][1..] == [g];
    assert Join([p, g], '.') == p + "." + g;
    assert Join([h, p, g], '.') == h + "." + (p + "." + g) == SigningInput(h, p) + "." + g;
  }

  /** Equal signing inputs come from equal header and claims parts. */
  lemma SigningInputUnambiguous(h: string, p: string, h': string, p': string)
    requires '.' !in h && '.' !in p && '.' !in h' && '.' !in p'
    requires SigningInput(h, p) == SigningInput(h', p')
    ensures h == h' && p == p'
  {
    SplitInTwo(SigningInput(h, p), '.', h, p);
    SplitInTwo(SigningInput(h, p), '.', h', p');
    assert [h, p][0] == [h', p'][0] && [h, p][1] == [h', p'][1];
  }

  /** A signed token splits into exactly the three parts it was made of. */
  lemma SignedTokenParts(lib: Library, secret: string, header: Header, claims: Claims)
    ensures var h, p := RawEncode(lib.headerText(header)), RawEncode(lib.claimsText(claims));
            Split(Sign(lib, secret, header, claims), '.') == [h, p, RawEncode(lib.mac(secret, SigningInput(h, p)))]
  {
    var h, p := RawEncode(lib.headerText(header)), RawEncode(lib.claimsText(claims));
    var g := RawEncode(lib.mac(secret, SigningInput(h, p)));
    Carries(lib.headerText(header));
    Carries(lib.claimsText(claims));
    Carries(lib.mac(secret, SigningInput(h, p)));
    ThreeParts(SigningInput(h, p) + "." + g, h, p, g);
  }

  // ----- What is accepted -----

  /** The pieces of a token that vouch for the claims under the secret. */
  ghost predicate Vouches(lib: Library, secret: string, h: string, p: string, g: string, claims: Claims) {
    && '.' !in h && '.' !in p && '.' !in g
    && Decode(g) == Some(lib.mac(secret, SigningInput(h, p)))
    && Decode(h).Some? && lib.parseHeader(Decode(h).value).Some?
    && lib.parseHeader(Decode(h).value).value.alg == "HS256"
    && Decode(p).Some? && lib.parseClaims(Decode(p).value) == Some(claims)
  }

  /** The claims are good at second `now` for a service that expects the issuer, if it names one. */
  predicate GoodAt(claims: Claims, expectedIssuer: string, now: int) {
    && (0 < claims.expiresAt ==> now <= claims.expiresAt)
    && (0 < claims.notBefore ==> claims.notBefore <= now)
    && (expectedIssuer == "" || expectedIssuer == claims.issuer)
    && claims.subject != ""
  }

  /** Pieces that vouch for claims leave only the claims to be checked. */
  lemma VouchedParts(lib: Library, secret: string, h: string, p: string, g: string, claims: Claims,
                     expectedIssuer: string, now: int)
    requires Vouches(lib, secret, h, p, g, claims)
    ensures Split(SigningInput(h, p) + "." + g, '.') == [h, p, g]
    ensures ValidateJWT(lib, SigningInput(h, p) + "." + g, secret, expectedIssuer, now)
         == CheckClaims(claims, expectedIssuer, now)
  {
    ThreeParts(SigningInput(h, p) + "." + g, h, p, g);
  }

  /** An accepted token has such pieces. */
  lemma AcceptedParts(lib: Library, token: string, secret: string, expectedIssuer: string, now: int, claims: Claims)
    returns (h: string, p: string, g: string)
    requires ValidateJWT(lib, token, secret, expectedIssuer, now) == Ok(claims)
    ensures token == SigningInput(h, p) + "." + g
    ensures Vouches(lib, secret, h, p, g, claims) && GoodAt(claims, expectedIssuer, now)
  {
    var parts := Split(token, '.');
    h, p, g := parts[0], parts[1], parts[2];
    SplitPieces(token, '.');
    assert parts == [h, p, g];
    ThreeParts(token, h, p, g);
    PartsVouch(lib, h, p, g, secret, expectedIssuer, now, claims);
  }

  lemma PartsVouch(lib: Library, h: string, p: string, g: string, secret: string, expectedIssuer: string, now: int,
                   claims: Claims)
    requires '.' !in h && '.' !in p && '.' !in g
    requires ValidateParts(lib, h, p, g, secret, expectedIssuer, now) == Ok(claims)
    ensures Vouches(lib, secret, h, p, g, claims) && GoodAt(claims, expectedIssuer, now)
  {
  }

  /** Of any token: it is accepted, with these claims, iff it is made of three pieces that vouch for claims good now. */
  lemma AcceptedExactly(lib: Library, token: string, secret: string, expectedIssuer: string, now: int, claims: Claims)
    ensures ValidateJWT(lib, token, secret, expectedIssuer, now) == Ok(claims) <==>
            GoodAt(claims, expectedIssuer, now) &&
            exists h, p, g :: token == SigningInput(h, p) + "." + g && Vouches(lib, secret, h, p, g, claims)
  {
    if ValidateJWT(lib, token, secret, expectedIssuer, now) == Ok(claims) {
      var h, p, g := AcceptedParts(lib, token, secret, expectedIssuer, now, claims);
    }
    forall h, p, g | token == SigningInput(h, p) + "." + g && Vouches(lib, secret, h, p, g, claims)
      ensures ValidateJWT(lib, token, secret, expectedIssuer, now) == CheckClaims(claims, expectedIssuer, now)
    {
      VouchedParts(lib, secret, h, p, g, claims, expectedIssuer, now);
    }
  }

  /** Accepted tokens with one signing input carry the same claims, whatever the secret, time and issuer asked for. */
  lemma SigningInputFixesClaims(lib: Library, input: string, g: string, g': string,
                                secret: string, secret': string, issuer: string, issuer': string, now: int, now': int)
    requires '.' !in g && '.' !in g'
    requires ValidateJWT(lib, input + "." + g, secret, issuer, now).Ok?
    requires ValidateJWT(lib, input + "." + g', secret', issuer', now').Ok?
    ensures ValidateJWT(lib, input + "." + g, secret, issuer, now)
         == ValidateJWT(lib, input + "." + g', secret', issuer', now')
  {
    var h, p := PartsOfInput(lib, input, g, secret, issuer, now);
    var h', p' := PartsOfInput(lib, input, g', secret', issuer', now');
    SigningInputUnambiguous(h, p, h', p');
  }

  lemma PartsOfInput(lib: Library, input: string, g: string, secret: string, issuer: string, now: int)
    returns (h: string, p: string)
    requires '.' !in g && ValidateJWT(lib, input + "." + g, secret, issuer, now).Ok?
    ensures '.' !in h && '.' !in p && input == SigningInput(h, p)
    ensures Decode(p).Some?
    ensures lib.parseClaims(Decode(p).value) == Some(ValidateJWT(lib, input + "." + g, secret, issuer, now).value)
  {
    var token := input + "." + g;
    var claims := ValidateJWT(lib, token, secret, issuer, now).value;
    var g0: string;
    h, p, g0 := AcceptedParts(lib, token, secret, issuer, now, claims);
    LastCutIsUnique(input, '.', g, SigningInput(h, p), g0);
  }

  // ----- Why a token is refused -----

  /** The algorithm that the header part names, if it can be read. */
  function AlgorithmOf(lib: Library, h: string): Option<string> {
    if Decode(h).None? || lib.parseHeader(Decode(h).value).None? then None
    else Some(lib.parseHeader(Decode(h).value).value.alg)
  }

  /** What each refusal says of the pieces of a token. */
  predicate TrueOfParts(lib: Library, h: string, p: string, g: string, secret: string, e: Error) {
    match e
    case BadHeaderEncoding => Decode(h).None?
    case BadHeader => Decode(h).Some? && AlgorithmOf(lib, h).None?
    case NoneNotPermitted => AlgorithmOf(lib, h).Some? && Lower(AlgorithmOf(lib, h).value) == "none"
    case UnsupportedAlgorithm => AlgorithmOf(lib, h).Some? && AlgorithmOf(lib, h).value != "HS256"
    case BadSignatureEncoding => Decode(g).None?
    case BadSignature => Decode(g).Some? && Decode(g).value != lib.mac(secret, h + "." + p)
    case BadClaimsEncoding => Decode(p).None?
    case BadClaims => Decode(p).Some? && lib.parseClaims(Decode(p).value).None?
    case _ => false
  }

  /** What each refusal says of the claims. */
  predicate TrueOfClaims(c: Claims, expectedIssuer: string, now: int, e: Error) {
    match e
    case Expired => 0 < c.expiresAt < now
    case NotYetValid => now < c.notBefore && 0 < c.notBefore
    case WrongIssuer => expectedIssuer !in {"", c.issuer}
    case NoSubject => c.subject == ""
    case _ => false
  }

  /** The reason given for a refusal is true of the token; the format is refused iff there are not two dots. */
  lemma RefusalIsTrue(lib: Library, token: string, secret: string, expectedIssuer: string, now: int)
    ensures var r := ValidateJWT(lib, token, secret, expectedIssuer, now);
            && (r == Err(BadFormat) <==> CountOf(token, '.') != 2)
            && (r.Err? && r.error != BadFormat ==>
                  exists h, p, g :: && token == h + "." + p + "." + g
                                    && RefusalOf(lib, h, p, g, secret, expectedIssuer, now, r.error))
  {
    PieceCount(token, '.');
    var parts := Split(token, '.');
    if |parts| == 3 {
      var h, p, g := parts[0], parts[1], parts[2];
      SplitPieces(token, '.');
      assert parts == [h, p, g];
      ThreeParts(token, h, p, g);
      RefusalOfParts(lib, h, p, g, secret, expectedIssuer, now);
    }
  }

  /** True of the pieces, or of the claims that vouched pieces carry. */
  ghost predicate RefusalOf(lib: Library, h: string, p: string, g: string, secret: string,
                            expectedIssuer: string, now: int, e: Error)
  {
    || TrueOfParts(lib, h, p, g, secret, e)
    || exists c :: Vouches(lib, secret, h, p, g, c) && TrueOfClaims(c, expectedIssuer, now, e)
  }

  lemma RefusalOfParts(lib: Library, h: string, p: string, g: string, secret: string, expectedIssuer: string, now: int)
    requires '.' !in h && '.' !in p && '.' !in g
    ensures var r := ValidateParts(lib, h, p, g, secret, expectedIssuer, now);
            r != Err(BadFormat) && (r.Err? ==> RefusalOf(lib, h, p, g, secret, expectedIssuer, now, r.error))
  {
    if Vouched(lib, secret, h, p, g) {
      var c := lib.parseClaims(Decode(p).value).value;
      assert Vouches(lib, secret, h, p, g, c);
      assert ValidateParts(lib, h, p, g, secret, expectedIssuer, now) == CheckClaims(c, expectedIssuer, now);
      RefusalOfClaims(c, expectedIssuer, now);
    } else {
      NotVouched(lib, h, p, g, secret, expectedIssuer, now);
    }
  }

  predicate Vouched(lib: Library, secret: string, h: string, p: string, g: string) {
    && AlgorithmOf(lib, h) == Some("HS256")
    && Decode(g) == Some(lib.mac(secret, SigningInput(h, p)))
    && Decode(p).Some? && lib.parseClaims(Decode(p).value).Some?
  }

  lemma RefusalOfClaims(c: Claims, expectedIssuer: string, now: int)
    ensures var r := CheckClaims(c, expectedIssuer, now); r.Err? ==> TrueOfClaims(c, expectedIssuer, now, r.error)
  {
  }

  lemma NotVouched(lib: Library, h: string, p: string, g: string, secret: string, expectedIssuer: string, now: int)
    requires !Vouched(lib, secret, h, p, g)
    ensures var r := ValidateParts(lib, h, p, g, secret, expectedIssuer, now);
            r.Err? && TrueOfParts(lib, h, p, g, secret, r.error)
  {
  }

  // ----- Round trip -----

  /** The pieces of a signed token vouch for its claims. */
  lemma SignedTokenVouches(lib: Library, secret: string, header: Header, claims: Claims)
    requires lib.Faithful() && header.alg == "HS256"
    ensures var h, p := RawEncode(lib.headerText(header)), RawEncode(lib.claimsText(claims));
            Vouches(lib, secret, h, p, RawEncode(lib.mac(secret, SigningInput(h, p))), claims)
  {
    var h, p := RawEncode(lib.headerText(header)), RawEncode(lib.claimsText(claims));
    var m := lib.mac(secret, SigningInput(h, p));
    Carries(lib.headerText(header));
    Carries(lib.claimsText(claims));
    Carries(m);
    assert lib.parseHeader(lib.headerText(header)) == Some(header);
    assert lib.parseClaims(lib.claimsText(claims)) == Some(claims);
  }

  lemma Carries(b: seq<Byte>)
    ensures Decode(RawEncode(b)) == Some(b) && '.' !in RawEncode(b)
  {
    RoundTrip(b);
    NoDot(RawEncode(b));
  }

  /** A signed token is accepted under its secret exactly while its claims are good, and yields those claims. */
  lemma SignedTokenAccepted(lib: Library, secret: string, typ: string, claims: Claims, expectedIssuer: string, now: int)
    requires lib.Faithful()
    ensures var r := ValidateJWT(lib, Sign(lib, secret, Header("HS256", typ), claims), secret, expectedIssuer, now);
            && (r.Ok? <==> GoodAt(claims, expectedIssuer, now))
            && (r.Ok? ==> r.value == claims)
  {
    var header := Header("HS256", typ);
    var h, p := RawEncode(lib.headerText(header)), RawEncode(lib.claimsText(claims));
    SignedTokenVouches(lib, secret, header, claims);
    VouchedParts(lib, secret, h, p, RawEncode(lib.mac(secret, SigningInput(h, p))), claims, expectedIssuer, now);
  }

  /** The claims say who, and give the seconds in which the stamps of issue and expiry fall. */
  lemma ClaimsOfCreatedToken(subject: string, role: string, issuer: string, duration: int, stamp: int)
    requires Representable(stamp) && Representable(stamp + duration)
    ensures var c := ClaimsFor(subject, role, issuer, duration, stamp);
            && c.subject == subject && c.role == role && c.issuer == issuer && c.jti == ""
            && c.issuedAt == c.notBefore
            && c.notBefore * 1_000_000_000 <= stamp < (c.notBefore + 1) * 1_000_000_000
            && c.expiresAt * 1_000_000_000 <= stamp + duration < (c.expiresAt + 1) * 1_000_000_000
  {
  }

  /** A created token is the header for HS256, these claims and the signature, in that order. */
  lemma CreatedTokenParts(lib: Library, secret: string, subject: string, role: string, issuer: string,
                          duration: int, stamp: int)
    requires Representable(stamp) && Representable(stamp + duration)
    ensures var parts := Split(CreateJWT(lib, secret, subject, role, issuer, duration, stamp), '.');
            && |parts| == 3
            && Decode(parts[0]) == Some(lib.headerText(Header("HS256", "JWT")))
            && Decode(parts[1]) == Some(lib.claimsText(ClaimsFor(subject, role, issuer, duration, stamp)))
            && Decode(parts[2]) == Some(lib.mac(secret, parts[0] + "." + parts[1]))
  {
    var header, claims := Header("HS256", "JWT"), ClaimsFor(subject, role, issuer, duration, stamp);
    SignedTokenParts(lib, secret, header, claims);
    var h, p := RawEncode(lib.headerText(header)), RawEncode(lib.claimsText(claims));
    Carries(lib.headerText(header));
    Carries(lib.claimsText(claims));
    Carries(lib.mac(secret, SigningInput(h, p)));
  }

  /**
    A created token is accepted from the second in which it is issued up to and including the second in
    which it expires; section 4.1.4 of RFC 7519 would exclude the latter.  Either limit counts only if it
    is at least a second after the epoch.
   */
  lemma CreatedTokenLifetime(lib: Library, secret: string, subject: string, role: string, issuer: string,
                             duration: int, stamp: int, expectedIssuer: string, now: int)
    requires lib.Faithful() && Representable(stamp) && Representable(stamp + duration)
    ensures var token := CreateJWT(lib, secret, subject, role, issuer, duration, stamp);
            var r := ValidateJWT(lib, token, secret, expectedIssuer, now);
            && (r.Ok? <==> && InLifetime(duration, stamp, now)
                           && subject != "" && (expectedIssuer == "" || expectedIssuer == issuer))
            && (r.Ok? ==> r.value == ClaimsFor(subject, role, issuer, duration, stamp))
  {
    var claims := ClaimsFor(subject, role, issuer, duration, stamp);
    ClaimsOfCreatedToken(subject, role, issuer, duration, stamp);
    SignedTokenAccepted(lib, secret, "JWT", claims, expectedIssuer, now);
  }

  /** In nanoseconds: second `now` has not ended before the issue, and has begun by the expiry. */
  predicate InLifetime(duration: int, stamp: int, now: int) {
    && (1_000_000_000 <= stamp ==> stamp < (now + 1) * 1_000_000_000)
    && (1_000_000_000 <= stamp + duration ==> now * 1_000_000_000 <= stamp + duration)
  }

  /** A token whose expiry is not after the epoch is never taken to have expired. */
  lemma NonPositiveExpiryNeverExpires(lib: Library, secret: string, claims: Claims, expectedIssuer: string, later: int)
    requires lib.Faithful() && claims.expiresAt <= 0 && claims.subject != ""
    requires expectedIssuer == "" || expectedIssuer == claims.issuer
    requires claims.notBefore <= later
    ensures var token := Sign(lib, secret, Header("HS256", "JWT"), claims);
            ValidateJWT(lib, token, secret, expectedIssuer, later) == Ok(claims)
  {
    SignedTokenAccepted(lib, secret, "JWT", claims, expectedIssuer, later);
  }

  /** From that second on the token is never accepted. */
  ghost predicate RejectedFrom(lib: Library, token: string, secret: string, expectedIssuer: string, second: int) {
    forall now :: second <= now ==> ValidateJWT(lib, token, secret, expectedIssuer, now).Err?
  }

  /** A token that is good for the service but for the time expires at some second iff its expiry is after the epoch. */
  lemma ExpiresExactly(lib: Library, secret: string, claims: Claims, expectedIssuer: string)
    requires lib.Faithful() && claims.subject != ""
    requires expectedIssuer == "" || expectedIssuer == claims.issuer
    ensures var token := Sign(lib, secret, Header("HS256", "JWT"), claims);
            (exists second :: RejectedFrom(lib, token, secret, expectedIssuer, second)) <==> claims.expiresAt > 0
  {
    var token := Sign(lib, secret, Header("HS256", "JWT"), claims);
    forall now
      ensures ValidateJWT(lib, token, secret, expectedIssuer, now).Ok? <==> GoodAt(claims, expectedIssuer, now)
    {
      SignedTokenAccepted(lib, secret, "JWT", claims, expectedIssuer, now);
    }
    if claims.expiresAt > 0 {
      assert RejectedFrom(lib, token, secret, expectedIssuer, claims.expiresAt + 1);
    } else {
      forall second
        ensures !RejectedFrom(lib, token, secret, expectedIssuer, second)
      {
        var now := if second < claims.notBefore then claims.notBefore else second;
        assert ValidateJWT(lib, token, secret, expectedIssuer, now).Ok?;
      }
    }
  }
}
