/** The two foreign libraries the server relies on, bcrypt (password hashing)
    and jsonwebtoken (session tokens signed with the server's secret), kept
    abstract: a `Scheme` is any choice of the four operations, and `Sound`
    states the only facts about them that the server's logic depends on. */
module Crypto {
  import opened Wrappers

  /** The claims a session token carries: `{ username, id }`. */
  datatype Claims = Claims(username: string, id: int)

  /** `hash` is `bcrypt.hash(_, 10)`, `compare` is `bcrypt.compare`, `sign` is
      `jwt.sign(_, SECRET_KEY)` and `verify` is `jwt.verify(_, SECRET_KEY)`,
      which yields the decoded claims or fails. */
  datatype Scheme = Scheme(
    hash: string -> string,
    compare: (string, string) -> bool,
    sign: Claims -> string,
    verify: string -> Option<Claims>)

  /** What the server assumes of its libraries:
      - a password matches its own hash;
      - a hash is never the plaintext it was computed from (bcrypt yields a
        `$2b$`-prefixed modular-crypt string, not its input);
      - a token the server signed verifies to exactly the claims it was
        signed with;
      - a signed token contains no space (a compact JWT is three base64url
        segments joined by dots), so it survives the `Bearer <token>` header. */
  ghost predicate Sound(s: Scheme) {
    && (forall p :: s.compare(p, s.hash(p)))
    && (forall p :: s.hash(p) != p)
    && (forall c :: s.verify(s.sign(c)) == Some(c))
    && (forall c :: ' ' !in s.sign(c))
  }
}

/** One concrete scheme meeting `Sound`, so that the assumptions placed on
    bcrypt and jsonwebtoken are consistent with each other. Its token writes
    the id's sign, the id in unary and the username with spaces escaped. */
module CryptoWitness {
  import opened Wrappers
  import opened Crypto

  /** The username with ' ' written as "~s" and '~' as "~~". */
  function Escape(s: string): (r: string)
    ensures ' ' !in r
  {
    if s == [] then []
    else (if s[0] == ' ' then "~s" else if s[0] == '~' then "~~" else [s[0]]) + Escape(s[1..])
  }

  function Unescape(t: string): Option<string>
  {
    if t == [] then Some([])
    else if t[0] == '~' then
      if |t| >= 2 && (t[1] == 's' || t[1] == '~') then
        match Unescape(t[2..])
        case Some(u) => Some([if t[1] == 's' then ' ' else '~'] + u)
        case None => None
      else None
    else
      match Unescape(t[1..])
      case Some(u) => Some([t[0]] + u)
      case None => None
  }

  lemma {:induction false} UnescapeEscape(s: string)
    ensures Unescape(Escape(s)) == Some(s)
  {
    if s != [] {
      UnescapeEscape(s[1..]);
      var e := Escape(s);
      if s[0] == ' ' {
        assert e == "~s" + Escape(s[1..]);
        assert e[0] == '~' && e[1] == 's' && e[2..] == Escape(s[1..]);
        assert Unescape(e) == Some([' '] + s[1..]);
      } else if s[0] == '~' {
        assert e == "~~" + Escape(s[1..]);
        assert e[0] == '~' && e[1] == '~' && e[2..] == Escape(s[1..]);
        assert Unescape(e) == Some(['~'] + s[1..]);
      } else {
        assert e == [s[0]] + Escape(s[1..]);
        assert e[1..] == Escape(s[1..]);
      }
      assert s == [s[0]] + s[1..];
    }
  }

  function Tally(n: nat): (r: string)
    ensures |r| == n && forall i :: 0 <= i < n ==> r[i] == '|'
  {
    if n == 0 then [] else ['|'] + Tally(n - 1)
  }

  /** The number of leading '|' characters. */
  function Bars(t: string): nat
  {
    if t != [] && t[0] == '|' then 1 + Bars(t[1..]) else 0
  }

  lemma {:induction false} BarsTally(n: nat, rest: string)
    requires rest != [] && rest[0] != '|'
    ensures Bars(Tally(n) + rest) == n
  {
    if n > 0 {
      assert (Tally(n) + rest)[1..] == Tally(n - 1) + rest;
      BarsTally(n - 1, rest);
    }
  }

  function Abs(x: int): nat { if x < 0 then -x else x }

  function ToySign(c: Claims): string
  {
    (if c.id < 0 then "-" else "") + Tally(Abs(c.id)) + "#" + Escape(c.username)
  }

  /** Reads back the unary id and the escaped username of a token without its sign. */
  function ReadBody(body: string): Option<(nat, string)>
  {
    var n := Bars(body);
    if n < |body| && body[n] == '#' then
      match Unescape(body[n + 1..])
      case Some(u) => Some((n, u))
      case None => None
    else None
  }

  function ToyVerify(t: string): Option<Claims>
  {
    var negative := t != [] && t[0] == '-';
    match ReadBody(if negative then t[1..] else t)
    case Some((n, u)) => Some(Claims(u, if negative then -(n as int) else n))
    case None => None
  }

  lemma ReadBodyOfSigned(n: nat, u: string)
    ensures ReadBody(Tally(n) + "#" + Escape(u)) == Some((n, u))
  {
    var body := Tally(n) + "#" + Escape(u);
    BarsTally(n, "#" + Escape(u));
    assert body == Tally(n) + ("#" + Escape(u));
    assert body[n] == '#';
    assert body[n + 1..] == Escape(u);
    UnescapeEscape(u);
  }

  lemma VerifySigned(negative: bool, body: string, n: nat, u: string)
    requires body != [] && body[0] != '-'
    requires ReadBody(body) == Some((n, u))
    ensures ToyVerify(if negative then "-" + body else body) ==
      Some(Claims(u, if negative then -(n as int) else n))
  {
  }

  lemma ToyRoundTrip(c: Claims)
    ensures ToyVerify(ToySign(c)) == Some(c)
  {
    var n := Abs(c.id);
    var body := Tally(n) + "#" + Escape(c.username);
    ReadBodyOfSigned(n, c.username);
    assert body[0] == (if n > 0 then '|' else '#');
    var t := if c.id < 0 then "-" + body else body;
    assert ToySign(c) == t;
    VerifySigned(c.id < 0, body, n, c.username);
    assert ToyVerify(t) == Some(c);
  }

  function ToyScheme(): Scheme
  {
    Scheme(
      p => "$2b$" + p,
      (p, h) => h == "$2b$" + p,
      ToySign,
      ToyVerify)
  }

  lemma ToySchemeIsSound()
    ensures Sound(ToyScheme())
  {
    var s := ToyScheme();
    forall p: string ensures s.hash(p) != p {
      assert |s.hash(p)| == |p| + 4;
    }
    forall c ensures s.verify(s.sign(c)) == Some(c) && ' ' !in s.sign(c) {
      ToyRoundTrip(c);
      assert ' ' !in Tally(Abs(c.id));
    }
  }
}
