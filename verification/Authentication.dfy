/** Command authentication: the signer appends an authenticator component to a name,
    the verifier finds it, rebuilds the signed prefix and checks it. */
module Authentication {
  import opened Options
  import opened Ndnb
  import opened NameWire

  type Word = x: int | 0 <= x < 0x1_0000_0000

  type Digest = b: Bytes | |b| == 32 witness seq(32, _ => 0)

  /** The primitives, kept abstract: HMAC-SHA256 and SHA-256. */
  datatype Crypto = Crypto(hmac: (Bytes, Bytes) -> Digest, sha256: Bytes -> Digest)

  /** One reading of the wall clock. */
  datatype Clock = Clock(sec: int, usec: int)

  datatype State = State(tvSec: Word, tvUsec: Word, sequence: Word, rsvd: Word)

  const PK_AUTH_MAGIC: Bytes := [0x21, 0x44, 0x07, 0x65]
  const SK_AUTH_MAGIC: Bytes := [0x40, 0x96, 0x1c, 0x51]

  // ----- Words and states on the wire -----

  function ToWord(x: int): Word { x % 0x1_0000_0000 }

  function Htonl(w: Word): (b: Bytes)
    ensures |b| == 4
  {
    [w / 0x100_0000, w / 0x1_0000 % 256, w / 256 % 256, w % 256]
  }

  function Ntohl(b: Bytes): Word
    requires |b| == 4
  {
    var b0: int, b1: int, b2: int, b3: int := b[0], b[1], b[2], b[3];
    b0 * 0x100_0000 + b1 * 0x1_0000 + b2 * 256 + b3
  }

  lemma WordRoundTrip(w: Word)
    ensures Ntohl(Htonl(w)) == w
  {
    var x := w / 256;
    var y := x / 256;
    assert w == x * 256 + w % 256 && x == y * 256 + x % 256;
    assert w / 0x1_0000 == y && w / 0x100_0000 == y / 256;
  }

  lemma Quotients(b0: int, b1: int, b2: int, b3: int)
    requires 0 <= b0 < 256 && 0 <= b1 < 256 && 0 <= b2 < 256 && 0 <= b3 < 256
    ensures var w := b0 * 0x100_0000 + b1 * 0x1_0000 + b2 * 256 + b3;
            w / 256 == b0 * 0x1_0000 + b1 * 256 + b2 && w / 0x1_0000 == b0 * 256 + b1 && w / 0x100_0000 == b0
  {
  }

  lemma BytesRoundTrip(b: Bytes)
    requires |b| == 4
    ensures Htonl(Ntohl(b)) == b
  {
    Quotients(b[0], b[1], b[2], b[3]);
    var w := Htonl(Ntohl(b));
    assert w[0] == b[0] && w[1] == b[1] && w[2] == b[2] && w[3] == b[3];
  }

  function NetState(st: State): (b: Bytes)
    ensures |b| == 16
  {
    Htonl(st.tvSec) + Htonl(st.tvUsec) + Htonl(st.sequence) + Htonl(st.rsvd)
  }

  function HostState(b: Bytes): State
    requires |b| == 16
  {
    State(Ntohl(b[..4]), Ntohl(b[4..8]), Ntohl(b[8..12]), Ntohl(b[12..16]))
  }

  lemma StateRoundTrip(st: State)
    ensures HostState(NetState(st)) == st
  {
    hide Htonl, Ntohl;
    WordRoundTrip(st.tvSec);
    WordRoundTrip(st.tvUsec);
    WordRoundTrip(st.sequence);
    WordRoundTrip(st.rsvd);
    var b := NetState(st);
    assert b[..4] == Htonl(st.tvSec) && b[4..8] == Htonl(st.tvUsec);
    assert b[8..12] == Htonl(st.sequence) && b[12..16] == Htonl(st.rsvd);
  }

  lemma StateBytesRoundTrip(b: Bytes)
    requires |b| == 16
    ensures NetState(HostState(b)) == b
  {
    hide Htonl, Ntohl;
    BytesRoundTrip(b[..4]);
    BytesRoundTrip(b[4..8]);
    BytesRoundTrip(b[8..12]);
    BytesRoundTrip(b[12..16]);
    assert b == b[..4] + b[4..8] + b[8..12] + b[12..16];
  }

  // ----- Signing -----

  function AppKey(crypto: Crypto, fixture: Bytes, appname: Bytes): Digest {
    crypto.hmac(fixture, crypto.sha256(appname))
  }

  /** The state a signer uses for its next command. */
  function Updated(st: State, now: Clock): State {
    State(ToWord(now.sec), ToWord(now.usec), ToWord(st.sequence + 1), st.rsvd)
  }

  function LengthBytes(n: nat): (b: Bytes)
    ensures |b| == 2
  {
    [n / 256 % 256, n % 256]
  }

  /** What follows the magic of an authenticator. */
  function Fields(st: State, appname: Bytes, mac: Digest): Bytes {
    LengthBytes(|appname|) + appname + NetState(st) + mac
  }

  /** The signer's MAC over the name, the application name and the state. */
  function SignerMac(crypto: Crypto, st: State, name: Bytes, appname: Bytes, appkey: Bytes): Digest {
    crypto.hmac(appkey, name + appname + NetState(st))
  }

  function Authenticator(crypto: Crypto, st: State, name: Bytes, appname: Bytes, appkey: Bytes): Bytes {
    SK_AUTH_MAGIC + Fields(st, appname, SignerMac(crypto, st, name, appname, appkey))
  }

  /** `name` with the authenticator component for state `st` appended. */
  function Signed(crypto: Crypto, st: State, name: Bytes, appname: Bytes, appkey: Bytes): Bytes
    requires name != []
  {
    Append(name, Authenticator(crypto, st, name, appname, appkey))
  }

  /** On the wire the state is its four fields, most significant byte first. */
  lemma StateLayout(st: State)
    ensures var b: seq<int> := NetState(st);
            && b[0] * 0x100_0000 + b[1] * 0x1_0000 + b[2] * 0x100 + b[3] == st.tvSec
            && b[4] * 0x100_0000 + b[5] * 0x1_0000 + b[6] * 0x100 + b[7] == st.tvUsec
            && b[8] * 0x100_0000 + b[9] * 0x1_0000 + b[10] * 0x100 + b[11] == st.sequence
            && b[12] * 0x100_0000 + b[13] * 0x1_0000 + b[14] * 0x100 + b[15] == st.rsvd
  {
    hide Htonl;
    var b := NetState(st);
    assert b[..4] == Htonl(st.tvSec) && b[4..8] == Htonl(st.tvUsec);
    assert b[8..12] == Htonl(st.sequence) && b[12..16] == Htonl(st.rsvd);
    WordRoundTrip(st.tvSec);
    WordRoundTrip(st.tvUsec);
    WordRoundTrip(st.sequence);
    WordRoundTrip(st.rsvd);
  }

  /** The authenticator is its magic, the two-byte length of the application name, the
      name, the state and the MAC over name, application name and state. */
  lemma AuthenticatorLayout(crypto: Crypto, st: State, name: Bytes, appname: Bytes, appkey: Bytes)
    requires |appname| < 65536
    ensures var c: seq<int>, n := Authenticator(crypto, st, name, appname, appkey), |appname|;
            && |c| == n + 54 && c[..4] == [0x40, 0x96, 0x1C, 0x51] && c[4] * 256 + c[5] == n
            && c[6..6 + n] == appname && c[6 + n..22 + n] == NetState(st)
            && c[22 + n..] == crypto.hmac(appkey, name + appname + NetState(st))
  {
    hide NetState;
    var c, n := Authenticator(crypto, st, name, appname, appkey), |appname|;
    var mac := crypto.hmac(appkey, name + appname + NetState(st));
    assert c == SK_AUTH_MAGIC + LengthBytes(n) + appname + NetState(st) + mac;
    assert c[4] == LengthBytes(n)[0] && c[5] == LengthBytes(n)[1];
  }

  // ----- Finding the authenticator -----

  datatype Kind = NotAuthenticator | Symmetric | Asymmetric

  /** `memcmp` of four bytes at `out`; it meets a difference before the end of a
      buffer that has fewer. */
  predicate StartsAt(buf: Bytes, out: nat, magic: Bytes) {
    out + |magic| <= |buf| && buf[out..out + |magic|] == magic
  }

  function Detect(buf: Bytes, out: nat): Kind {
    if StartsAt(buf, out, PK_AUTH_MAGIC) then Asymmetric
    else if StartsAt(buf, out, SK_AUTH_MAGIC) then Symmetric
    else NotAuthenticator
  }

  /** `ndn_name_comp_get`: where the payload of component `i` starts, and its size. */
  function CompGet(buf: Bytes, index: seq<nat>, i: nat): (r: Option<(nat, nat)>)
    ensures r.Some? ==> r.value.0 + r.value.1 < |buf|
  {
    if !Delimits(index, i, |buf|) || index[i + 1] < index[i] + 2 then None
    else
      match ReadTag(buf[index[i] + 1..], 0)
      case Some((Some(d), n)) =>
        var out, size := index[i] + 1 + n, d / 8;
        if d % 8 == BLOB && out + size < |buf| then Some((out, size)) else None
      case _ => None
  }

  datatype Extraction =
    | Missing
    | Found(kind: Kind, authenticator: Bytes, prefix: Bytes)

  /** The rightmost authenticator among components 1 to `i`. */
  function ScanFrom(buf: Bytes, index: seq<nat>, i: nat): Extraction
    decreases i
  {
    if i == 0 then Missing
    else
      match CompGet(buf, index, i)
      case None => Missing
      case Some((out, size)) =>
        var kind := Detect(buf, out);
        if kind == NotAuthenticator then ScanFrom(buf, index, i - 1)
        else
          match CompGet(buf, index, i - 1)
          case None => Missing
          case Some((prev, length)) => Found(kind, buf[out..out + size], buf[..length + prev + 1] + [0])
  }

  function Extract(buf: Bytes): Extraction {
    match SplitName(buf)
    case None => Missing
    case Some(index) => if |index| < 2 then Missing else ScanFrom(buf, index, |index| - 2)
  }

  // ----- Freshness -----

  /** The microsecond difference as the source computes it, before its cast. */
  function Difference(now: Clock, st: State): int {
    (now.sec - st.tvSec) * 1000000 + now.usec - st.tvUsec
  }

  /** The cast to a 32-bit signed int. */
  function ToInt32(x: int): int {
    var w := x % 0x1_0000_0000;
    if w < 0x8000_0000 then w else w - 0x1_0000_0000
  }

  function Abs(x: int): nat { if x < 0 then -x else x }

  /** C division rounds toward zero, so the magnitude divides as a natural. */
  predicate Fresh(now: Clock, st: State, maxDelay: nat) {
    maxDelay == 0 || Abs(ToInt32(Difference(now, st))) / 1000 <= maxDelay
  }

  /** The test is exact while the clocks differ by less than 2^31 microseconds. */
  lemma FreshExact(now: Clock, st: State, maxDelay: nat)
    requires maxDelay != 0
    ensures var d := (now.sec - st.tvSec) * 1000000 + now.usec - st.tvUsec;
            -0x8000_0000 < d < 0x8000_0000 ==>
              (Fresh(now, st, maxDelay) <==> -1000 * (maxDelay + 1) < d < 1000 * (maxDelay + 1))
  {
  }

  lemma NearestMultiple(x: int, k: int)
    ensures Abs(ToInt32(x)) <= Abs(x - k * 0x1_0000_0000)
  {
    var w, q := x % 0x1_0000_0000, x / 0x1_0000_0000;
    assert x - k * 0x1_0000_0000 == w + (q - k) * 0x1_0000_0000;
  }

  /** In general it accepts a difference within the window of any multiple of 2^32
      microseconds, about 71.6 minutes. */
  lemma FreshModulo(now: Clock, st: State, maxDelay: nat)
    requires maxDelay != 0
    ensures var d := (now.sec - st.tvSec) * 1000000 + now.usec - st.tvUsec;
            Fresh(now, st, maxDelay) <==> exists k: int :: Abs(d - k * 0x1_0000_0000) / 1000 <= maxDelay
  {
    var d := Difference(now, st);
    if Fresh(now, st, maxDelay) {
      var k := if d % 0x1_0000_0000 < 0x8000_0000 then d / 0x1_0000_0000 else d / 0x1_0000_0000 + 1;
      assert ToInt32(d) == d - k * 0x1_0000_0000;
    }
    if k: int :| Abs(d - k * 0x1_0000_0000) / 1000 <= maxDelay {
      NearestMultiple(d, k);
    }
  }

  /** A difference of exactly 2^32 microseconds passes for every window it is outside of. */
  lemma FreshWraps(now: Clock, st: State, maxDelay: nat)
    requires (now.sec - st.tvSec) * 1000000 + now.usec - st.tvUsec == 0x1_0000_0000
    requires 0 < maxDelay < 4294967
    ensures Fresh(now, st, maxDelay) && maxDelay < 0x1_0000_0000 / 1000
  {
    assert ToInt32(0x1_0000_0000) == 0;
  }

  /** The test and the intended one agree exactly when the difference is inside the
      window, or outside the window of every other multiple too. */
  lemma FreshAgrees(now: Clock, st: State, maxDelay: nat)
    requires maxDelay != 0
    ensures var d := (now.sec - st.tvSec) * 1000000 + now.usec - st.tvUsec;
            (Fresh(now, st, maxDelay) <==> Abs(d) / 1000 <= maxDelay) <==>
            || Abs(d) / 1000 <= maxDelay
            || forall k: int | k != 0 :: maxDelay < Abs(d - k * 0x1_0000_0000) / 1000
  {
    FreshModulo(now, st, maxDelay);
    var d := Difference(now, st);
    assert d - 0 * 0x1_0000_0000 == d;
  }

  predicate WordClock(c: Clock) { 0 <= c.sec < 0x1_0000_0000 && 0 <= c.usec < 0x1_0000_0000 }

  /** The signer's next state carries the clock it signed at and the next number. */
  lemma UpdatedCarries(st: State, signed: Clock)
    requires WordClock(signed) && st.sequence < 0xFFFF_FFFF
    ensures Updated(st, signed) == State(signed.sec, signed.usec, st.sequence + 1, st.rsvd)
  {
  }

  /** A command signed at one clock and checked at another is fresh iff the two are less
      than the delay and one millisecond apart. */
  lemma SignedFresh(st: State, signed: Clock, now: Clock, maxDelay: nat)
    requires WordClock(signed) && maxDelay != 0
    ensures var d := (now.sec - signed.sec) * 1000000 + now.usec - signed.usec;
            && (-1000 * (maxDelay + 1) < d < 1000 * (maxDelay + 1) ==> Fresh(now, Updated(st, signed), maxDelay))
            && (-0x8000_0000 < d < 0x8000_0000 && Fresh(now, Updated(st, signed), maxDelay) ==>
                  -1000 * (maxDelay + 1) < d < 1000 * (maxDelay + 1))
  {
    hide Fresh;
    var d := (now.sec - signed.sec) * 1000000 + now.usec - signed.usec;
    FreshModulo(now, Updated(st, signed), maxDelay);
    FreshExact(now, Updated(st, signed), maxDelay);
    if -1000 * (maxDelay + 1) < d < 1000 * (maxDelay + 1) {
      assert Abs(d - 0 * 0x1_0000_0000) / 1000 <= maxDelay;
    }
  }

  // ----- Verifying -----

  /** The source's result codes, and `Aborted` where its assertion on the length fails
      or it would read past the component. */
  datatype Verdict =
    | AuthOk
    | MissingAuthenticator
    | VerificationFailed
    | CommandExpired
    | DuplicateInterest
    | KeyNotProvided
    | StateNotVerified
    | Aborted

  /** What a verifier that holds `current` remembers of a command with state `st`. */
  function Raised(current: State, st: State, now: Clock): State {
    State(ToWord(now.sec), ToWord(now.usec), st.sequence, current.rsvd)
  }

  /** Freshness check and state update together; no stored state, no check. */
  function CheckState(stored: Option<State>, st: State, now: Clock, maxDelay: nat): (Verdict, Option<State>) {
    match stored
    case None => (StateNotVerified, stored)
    case Some(current) =>
      if st.sequence <= current.sequence then (DuplicateInterest, stored)
      else if !Fresh(now, st, maxDelay) then (CommandExpired, stored)
      else (AuthOk, Some(Raised(current, st, now)))
  }

  function NameLength(a: Bytes): nat
    requires 2 <= |a|
  {
    var high: int, low: int := a[0], a[1];
    high * 256 + low
  }

  /** The fields of an authenticator with its magic removed. */
  predicate WellFormed(a: Bytes) {
    2 <= |a| && |a| == 2 + NameLength(a) + 16 + 32
  }

  function AppName(a: Bytes): Bytes
    requires WellFormed(a)
  {
    a[2..2 + NameLength(a)]
  }

  function StateBytes(a: Bytes): (b: Bytes)
    requires WellFormed(a)
    ensures |b| == 16
  {
    a[2 + NameLength(a)..2 + NameLength(a) + 16]
  }

  function Mac(a: Bytes): Bytes
    requires WellFormed(a)
  {
    a[2 + NameLength(a) + 16..]
  }

  function VerifySymm(
    crypto: Crypto, a: Bytes, prefix: Bytes, key: Bytes, stored: Option<State>, now: Clock, maxDelay: nat)
    : (Verdict, Option<State>)
  {
    if !WellFormed(a) then (Aborted, stored)
    else
      var (verdict, updated) := CheckState(stored, HostState(StateBytes(a)), now, maxDelay);
      if verdict != AuthOk && verdict != StateNotVerified then (verdict, updated)
      else if crypto.hmac(AppKey(crypto, key, AppName(a)), prefix + AppName(a) + StateBytes(a)) != Mac(a) then
        (VerificationFailed, updated)
      else (AuthOk, updated)
  }

  /** `verifyCommand` without an RSA key; `key` may be missing or empty. */
  function Verify(
    crypto: Crypto, name: Bytes, key: Option<Bytes>, stored: Option<State>, now: Clock, maxDelay: nat)
    : (Verdict, Option<State>)
  {
    match Extract(name)
    case Missing => (MissingAuthenticator, stored)
    case Found(kind, a, prefix) =>
      if kind == Asymmetric || key.None? || key.value == [] then (KeyNotProvided, stored)
      else if |a| < 4 then (Aborted, stored)
      else VerifySymm(crypto, a[4..], prefix, key.value, stored, now, maxDelay)
  }

  // ----- Extraction on encoded names -----

  function KindOf(c: Bytes): Kind {
    if PK_AUTH_MAGIC <= c then Asymmetric else if SK_AUTH_MAGIC <= c then Symmetric else NotAuthenticator
  }

  lemma StartsAtPayload(buf: Bytes, out: nat, c: Bytes, magic: Bytes)
    requires out + |c| < |buf| && buf[out..out + |c|] == c && buf[out + |c|] == 0
    requires forall i | 0 <= i < |magic| :: magic[i] != 0
    ensures StartsAt(buf, out, magic) <==> magic <= c
  {
    if magic <= c {
      assert buf[out..out + |magic|] == c[..|magic|];
    }
    if StartsAt(buf, out, magic) {
      assert forall i | 0 <= i < |magic| :: buf[out + i] == magic[i];
      assert |magic| <= |c|;
      assert c[..|magic|] == magic;
    }
  }

  lemma FieldsOf(buf: Bytes, start: nat, header: Bytes, c: Bytes)
    requires start + |header| + |c| + 2 <= |buf|
    requires buf[start..start + |header| + |c| + 2] == [0xFA] + (header + c) + [0]
    ensures var out := start + 1 + |header|;
            && buf[start + 1..] == header + buf[out..]
            && buf[out..out + |c|] == c && buf[out + |c|] == 0
  {
    var n := |header| + |c| + 2;
    var after := buf[start + n..];
    var tail := c + ([0] + after);
    assert buf[start..] == buf[start..start + n] + after;
    assert buf[start..] == [0xFA] + (header + tail);
    assert buf[start + 1..] == buf[start..][1..] == header + tail;
    assert buf[start + 1 + |header|..] == buf[start + 1..][|header|..] == tail;
    assert tail[..|c|] == c && tail[|c|] == 0;
  }

  lemma PrefixLayout(comps: seq<Bytes>, i: nat)
    requires i < |comps|
    ensures var name, index := EncodeName(comps), Starts(Parts(comps), 1);
            && Delimits(index, i, |name|) && index[i + 1] == index[i] + |EncodeComponent(comps[i])|
            && Part(name, index, i) == EncodeComponent(comps[i])
            && name[..index[i + 1]] + [0] == EncodeName(comps[..i + 1])
  {
    hide EncodeComponent, Header;
    TagBytes();
    var name, parts := EncodeName(comps), Parts(comps);
    var index := Starts(parts, 1);
    StartsDelimit(parts, [0xF2], [0], i);
    assert name == [0xF2] + Flatten(parts) + [0];
    assert name[..index[i + 1]] == name[..index[i]] + name[index[i]..index[i + 1]];
    assert parts[..i + 1] == parts[..i] + [parts[i]] && Parts(comps[..i + 1]) == parts[..i + 1];
    FlattenConcat(parts[..i], [parts[i]]);
    FlattenOne(parts[i]);
  }

  lemma FlattenOne(part: Bytes)
    ensures Flatten([part]) == part
  {
    assert [part][1..] == [];
    assert Flatten([part]) == part + [];
  }

  lemma PartLayout(comps: seq<Bytes>, i: nat)
    requires i < |comps|
    ensures var name, index, c := EncodeName(comps), Starts(Parts(comps), 1), comps[i];
            var header := Header(|c|, BLOB);
            var out := index[i] + 1 + |header|;
            && Delimits(index, i, |name|) && index[i + 1] == out + |c| + 1
            && name[index[i] + 1..] == header + name[out..]
            && name[out..out + |c|] == c && name[out + |c|] == 0
            && name[..index[i + 1]] + [0] == EncodeName(comps[..i + 1])
  {
    hide Header, EncodeName;
    PrefixLayout(comps, i);
    TagBytes();
    var header := Header(|comps[i]|, BLOB);
    assert EncodeComponent(comps[i]) == [0xFA] + (header + comps[i]) + [0];
    FieldsOf(EncodeName(comps), Starts(Parts(comps), 1)[i], header, comps[i]);
  }

  lemma CompGetIs(buf: Bytes, index: seq<nat>, i: nat, n: nat, d: nat)
    requires Delimits(index, i, |buf|) && index[i] + 2 <= index[i + 1]
    requires ReadTag(buf[index[i] + 1..], 0) == Some((Some(d), n))
    requires d % 8 == BLOB && index[i] + 1 + n + d / 8 < |buf|
    ensures CompGet(buf, index, i) == Some((index[i] + 1 + n, d / 8))
  {
  }

  /** On an encoded name the component lookup finds the payload, and the detection on
      the buffer sees exactly the payload's own kind. */
  lemma CompGetEncoded(comps: seq<Bytes>, i: nat) returns (out: nat)
    requires i < |comps|
    ensures var name := EncodeName(comps);
            && CompGet(name, Starts(Parts(comps), 1), i) == Some((out, |comps[i]|))
            && out + |comps[i]| < |name| && name[out..out + |comps[i]|] == comps[i]
            && Detect(name, out) == KindOf(comps[i])
            && name[..out + |comps[i]| + 1] + [0] == EncodeName(comps[..i + 1])
  {
    hide Header, EncodeName, CompGet, ReadTag, Detect, Starts, Parts;
    var name, index, c := EncodeName(comps), Starts(Parts(comps), 1), comps[i];
    var header := Header(|c|, BLOB);
    out := index[i] + 1 + |header|;
    PartLayout(comps, i);
    HeaderRoundTrip(|c|, BLOB, name[out..]);
    PayloadKind(name, out, c);
    CompGetIs(name, index, i, |header|, |c| * 8 + BLOB);
  }

  lemma PayloadKind(buf: Bytes, out: nat, c: Bytes)
    requires out + |c| < |buf| && buf[out..out + |c|] == c && buf[out + |c|] == 0
    ensures Detect(buf, out) == KindOf(c)
  {
    StartsAtPayload(buf, out, c, PK_AUTH_MAGIC);
    StartsAtPayload(buf, out, c, SK_AUTH_MAGIC);
  }

  /** The rightmost component in 1 to `i` that carries an authenticator's magic. */
  function LastAuthenticator(comps: seq<Bytes>, i: nat): (r: Option<nat>)
    requires i < |comps|
    ensures r.Some? ==> 0 < r.value <= i && KindOf(comps[r.value]) != NotAuthenticator
    ensures forall k | 0 < k <= i && (r.Some? ==> r.value < k) :: KindOf(comps[k]) == NotAuthenticator
  {
    if i == 0 then None
    else if KindOf(comps[i]) != NotAuthenticator then Some(i)
    else LastAuthenticator(comps, i - 1)
  }

  lemma {:induction false} ScanEncoded(comps: seq<Bytes>, i: nat)
    requires i < |comps|
    ensures ScanFrom(EncodeName(comps), Starts(Parts(comps), 1), i) ==
            match LastAuthenticator(comps, i)
            case None => Missing
            case Some(j) => Found(KindOf(comps[j]), comps[j], EncodeName(comps[..j]))
    decreases i
  {
    hide EncodeName, CompGet, Detect, Starts, Parts, KindOf;
    if i != 0 {
      var out := CompGetEncoded(comps, i);
      if KindOf(comps[i]) == NotAuthenticator {
        ScanEncoded(comps, i - 1);
      } else {
        var prev := CompGetEncoded(comps, i - 1);
      }
    }
  }

  /** From an encoded name the verifier extracts its rightmost authenticator and,
      byte for byte, the encoding of the components before it. */
  lemma ExtractEncoded(comps: seq<Bytes>)
    requires comps != []
    ensures Extract(EncodeName(comps)) ==
            match LastAuthenticator(comps, |comps| - 1)
            case None => Missing
            case Some(j) => Found(KindOf(comps[j]), comps[j], EncodeName(comps[..j]))
  {
    hide EncodeName, SplitName, ScanFrom, Parts, Starts, LastAuthenticator, KindOf;
    SplitNameEncoded(comps);
    ScanEncoded(comps, |comps| - 1);
  }

  // ----- Signer and verifier agree -----

  /** The verifier's offsets find the signer's fields. */
  lemma AuthenticatorFields(st: State, appname: Bytes, mac: Digest)
    requires |appname| < 65536
    ensures var a := Fields(st, appname, mac);
            && WellFormed(a) && AppName(a) == appname && StateBytes(a) == NetState(st) && Mac(a) == mac
            && HostState(StateBytes(a)) == st
  {
    hide NetState, HostState;
    var a := Fields(st, appname, mac);
    assert a[0] == LengthBytes(|appname|)[0] && a[1] == LengthBytes(|appname|)[1];
    assert NameLength(a) == |appname|;
    StateRoundTrip(st);
  }

  lemma MagicFirst(a: Bytes)
    ensures var c := SK_AUTH_MAGIC + a; KindOf(c) == Symmetric && 4 <= |c| && c[4..] == a
  {
    assert (SK_AUTH_MAGIC + a)[0] == 0x40;
  }

  /** The verifier finds an authenticator appended to a name, and the name itself. */
  lemma ExtractAppended(comps: seq<Bytes>, a: Bytes)
    requires comps != []
    ensures Extract(Append(EncodeName(comps), SK_AUTH_MAGIC + a)) ==
            Found(Symmetric, SK_AUTH_MAGIC + a, EncodeName(comps))
  {
    hide Extract, EncodeName, KindOf, Append;
    var c := SK_AUTH_MAGIC + a;
    var all := comps + [c];
    MagicFirst(a);
    AppendEncoded(comps, c);
    ExtractEncoded(all);
    assert all[|comps|] == c && all[..|comps|] == comps;
  }

  /** In particular in a signed name the signer's own authenticator and name bytes. */
  lemma ExtractSigned(crypto: Crypto, st: State, comps: seq<Bytes>, appname: Bytes, appkey: Bytes)
    requires comps != []
    ensures Extract(Signed(crypto, st, EncodeName(comps), appname, appkey)) ==
            Found(Symmetric, Authenticator(crypto, st, EncodeName(comps), appname, appkey), EncodeName(comps))
  {
    hide Extract, EncodeName, Fields, Append;
    ExtractAppended(comps, Fields(st, appname, SignerMac(crypto, st, EncodeName(comps), appname, appkey)));
  }

  /** A command with any 32 bytes for its MAC, built on a name with at least one
      component and an application name of fewer than 65536 bytes.  The verifier
      remembers a newer and fresh one before it looks at the MAC, which it expects under
      the key that the fixture key derives from the application name. */
  lemma MacVerdict(
    crypto: Crypto, st: State, comps: seq<Bytes>, appname: Bytes, mac: Digest, key: Bytes, stored: Option<State>,
    now: Clock, maxDelay: nat)
    requires comps != [] && |appname| < 65536 && key != []
    ensures var name := EncodeName(comps);
            var appkey := crypto.hmac(key, crypto.sha256(appname));
            var right := crypto.hmac(appkey, name + appname + NetState(st));
            var verdict := if mac == right then AuthOk else VerificationFailed;
            Verify(crypto, Append(name, SK_AUTH_MAGIC + Fields(st, appname, mac)), Some(key), stored, now, maxDelay) ==
            match stored
            case None => (verdict, None)
            case Some(current) =>
              if st.sequence <= current.sequence then (DuplicateInterest, stored)
              else if !Fresh(now, st, maxDelay) then (CommandExpired, stored)
              else (verdict, Some(State(ToWord(now.sec), ToWord(now.usec), st.sequence, current.rsvd)))
  {
    hide Extract, EncodeName, KindOf, Append, Fields, Fresh, NetState, HostState, WellFormed, AppName, StateBytes, Mac;
    ExtractAppended(comps, Fields(st, appname, mac));
    MagicFirst(Fields(st, appname, mac));
    AuthenticatorFields(st, appname, mac);
  }

  /** A genuine command checked with the matching fixture key is accepted iff its
      sequence is newer and its time fresh; the verifier then remembers it. */
  lemma SignedVerdict(
    crypto: Crypto, st: State, comps: seq<Bytes>, appname: Bytes, key: Bytes, current: State, now: Clock, maxDelay: nat)
    requires comps != [] && |appname| < 65536 && key != []
    ensures Verify(crypto, Signed(crypto, st, EncodeName(comps), appname, crypto.hmac(key, crypto.sha256(appname))),
                   Some(key), Some(current), now, maxDelay) ==
            if st.sequence <= current.sequence then (DuplicateInterest, Some(current))
            else if !Fresh(now, st, maxDelay) then (CommandExpired, Some(current))
            else (AuthOk, Some(Raised(current, st, now)))
  {
    hide Verify, EncodeName, Append, Fields, Fresh, NetState;
    var mac := SignerMac(crypto, st, EncodeName(comps), appname, crypto.hmac(key, crypto.sha256(appname)));
    MacVerdict(crypto, st, comps, appname, mac, key, Some(current), now, maxDelay);
  }

  /** A newer and fresh command signed under one fixture key passes under another iff
      the two derived keys give the same MAC; otherwise it fails at the MAC. */
  lemma KeySeparation(
    crypto: Crypto, st: State, comps: seq<Bytes>, appname: Bytes, k1: Bytes, k2: Bytes, current: State, now: Clock,
    maxDelay: nat)
    requires comps != [] && |appname| < 65536 && k2 != []
    requires current.sequence < st.sequence && Fresh(now, st, maxDelay)
    ensures var text := EncodeName(comps) + appname + NetState(st);
            var id := crypto.sha256(appname);
            var name := Signed(crypto, st, EncodeName(comps), appname, crypto.hmac(k1, id));
            Verify(crypto, name, Some(k2), Some(current), now, maxDelay).0 ==
            if crypto.hmac(crypto.hmac(k1, id), text) == crypto.hmac(crypto.hmac(k2, id), text) then AuthOk
            else VerificationFailed
  {
    hide Verify, EncodeName, Append, Fields, Fresh, NetState;
    var mac := SignerMac(crypto, st, EncodeName(comps), appname, crypto.hmac(k1, crypto.sha256(appname)));
    MacVerdict(crypto, st, comps, appname, mac, k2, Some(current), now, maxDelay);
  }

  /** A forged command, with any MAC but the right one, is refused; when it is newer
      and fresh the stored state moves all the same. */
  lemma ForgedMovesState(
    crypto: Crypto, st: State, comps: seq<Bytes>, appname: Bytes, mac: Digest, key: Bytes, current: State, now: Clock,
    maxDelay: nat)
    requires comps != [] && |appname| < 65536 && key != []
    requires mac != crypto.hmac(crypto.hmac(key, crypto.sha256(appname)), EncodeName(comps) + appname + NetState(st))
    ensures var name := Append(EncodeName(comps), SK_AUTH_MAGIC + Fields(st, appname, mac));
            var (verdict, after) := Verify(crypto, name, Some(key), Some(current), now, maxDelay);
            && verdict != AuthOk
            && (current.sequence < st.sequence && Fresh(now, st, maxDelay) ==>
                  (verdict, after) == (VerificationFailed, Some(Raised(current, st, now))))
  {
    hide Verify, EncodeName, Append, Fields, Fresh, NetState;
    MacVerdict(crypto, st, comps, appname, mac, key, Some(current), now, maxDelay);
  }

  /** The first component cannot be an authenticator: a command signed on the empty
      name is never accepted. */
  lemma BareAuthenticatorRefused(
    crypto: Crypto, st: State, appname: Bytes, appkey: Bytes, key: Option<Bytes>, stored: Option<State>, now: Clock,
    maxDelay: nat)
    ensures Verify(crypto, Signed(crypto, st, EncodeName([]), appname, appkey), key, stored, now, maxDelay) ==
            (MissingAuthenticator, stored)
  {
    hide Authenticator, Extract, EncodeName, Append;
    var c := Authenticator(crypto, st, EncodeName([]), appname, appkey);
    AppendEncoded([], c);
    assert [] + [c] == [c];
    ExtractEncoded([c]);
  }

  /** The length field keeps 16 bits: a longer application name makes a command on
      which the verifier's length assertion fails. */
  lemma LongAppNameAborts(
    crypto: Crypto, st: State, comps: seq<Bytes>, appname: Bytes, appkey: Bytes, key: Bytes, stored: Option<State>,
    now: Clock, maxDelay: nat)
    requires comps != [] && 65536 <= |appname| && key != []
    ensures Verify(crypto, Signed(crypto, st, EncodeName(comps), appname, appkey), Some(key), stored, now, maxDelay) ==
            (Aborted, stored)
  {
    hide Extract, EncodeName, KindOf, NetState, Signed;
    ExtractSigned(crypto, st, comps, appname, appkey);
    var a := Fields(st, appname, SignerMac(crypto, st, EncodeName(comps), appname, appkey));
    MagicFirst(a);
    assert a[0] == LengthBytes(|appname|)[0] && a[1] == LengthBytes(|appname|)[1];
    assert NameLength(a) < 65536 <= |appname| && |a| == 2 + |appname| + 16 + 32;
  }

  /** An authenticator with the signer's MAC is what the signer appends. */
  lemma SignedByFields(crypto: Crypto, prefix: seq<Bytes>, c: Bytes, key: Bytes) returns (st: State, appname: Bytes)
    requires SK_AUTH_MAGIC <= c && WellFormed(c[4..])
    requires var f := c[4..];
             Mac(f) == crypto.hmac(AppKey(crypto, key, AppName(f)), EncodeName(prefix) + AppName(f) + StateBytes(f))
    ensures st == HostState(StateBytes(c[4..])) && |appname| < 65536
    ensures EncodeName(prefix + [c]) ==
            Signed(crypto, st, EncodeName(prefix), appname, crypto.hmac(key, crypto.sha256(appname)))
  {
    hide EncodeName, NetState, HostState, Append, WellFormed, AppName, StateBytes, Mac;
    var a := c[4..];
    st, appname := HostState(StateBytes(a)), AppName(a);
    StateBytesRoundTrip(StateBytes(a));
    FieldsJoin(a);
    assert c == SK_AUTH_MAGIC + a;
    AppendEncoded(prefix, c);
  }

  /** Component `j` is the rightmost one after the first that starts with a magic. */
  predicate Rightmost(comps: seq<Bytes>, j: nat) {
    && 0 < j < |comps| && KindOf(comps[j]) != NotAuthenticator
    && forall k | j < k < |comps| :: KindOf(comps[k]) == NotAuthenticator
  }

  lemma KindLiterals(c: Bytes)
    ensures KindOf(c) == Asymmetric <==> [0x21, 0x44, 0x07, 0x65] <= c
    ensures KindOf(c) == Symmetric <==> [0x40, 0x96, 0x1C, 0x51] <= c
  {
    assert PK_AUTH_MAGIC[0] != SK_AUTH_MAGIC[0];
  }

  lemma ExtractRightmost(comps: seq<Bytes>, j: nat)
    requires Rightmost(comps, j)
    ensures Extract(EncodeName(comps)) == Found(KindOf(comps[j]), comps[j], EncodeName(comps[..j]))
  {
    hide Extract, EncodeName, KindOf;
    ExtractEncoded(comps);
    assert KindOf(comps[j]) != NotAuthenticator;
  }

  /** The authenticator is missing exactly in bytes that encode no name, or a name without
      one after its first component. */
  lemma MissingIff(
    crypto: Crypto, buf: Bytes, key: Option<Bytes>, stored: Option<State>, now: Clock, maxDelay: nat)
    ensures Verify(crypto, buf, key, stored, now, maxDelay).0 == MissingAuthenticator <==>
            !exists comps, j :: buf == EncodeName(comps) && Rightmost(comps, j)
    ensures Verify(crypto, buf, key, stored, now, maxDelay).0 == MissingAuthenticator ==>
              Verify(crypto, buf, key, stored, now, maxDelay).1 == stored
  {
    hide EncodeName, Extract, Rightmost, HostState, WellFormed, AppName, StateBytes, Mac, Fresh;
    if comps, j :| buf == EncodeName(comps) && Rightmost(comps, j) {
      ExtractRightmost(comps, j);
    }
    if Extract(buf).Found? {
      var comps, j := FoundRightmost(buf);
    }
  }

  /** What is found is a component of an encoded name. */
  lemma FoundRightmost(buf: Bytes) returns (comps: seq<Bytes>, j: nat)
    requires Extract(buf).Found?
    ensures buf == EncodeName(comps) && Rightmost(comps, j)
  {
    hide EncodeName, KindOf, ScanFrom;
    SplitNameIff(buf);
    comps :| buf == EncodeName(comps);
    SplitNameEncoded(comps);
    ExtractEncoded(comps);
    j := LastAuthenticator(comps, |comps| - 1).value;
  }

  /** The whole decision on a name whose rightmost authenticator is `c`: no key, a length
      that does not fit, then state and MAC, in this order. */
  lemma Decision(
    crypto: Crypto, comps: seq<Bytes>, j: nat, key: Option<Bytes>, stored: Option<State>, now: Clock, maxDelay: nat)
    requires Rightmost(comps, j)
    ensures var c: seq<int> := comps[j];
            Verify(crypto, EncodeName(comps), key, stored, now, maxDelay) ==
            if c[0] == 0x21 || key.None? || key.value == [] then (KeyNotProvided, stored)
            else if |c| < 6 || |c| != 54 + c[4] * 256 + c[5] then (Aborted, stored)
            else
              var n := c[4] * 256 + c[5];
              var appname, state, mac := comps[j][6..6 + n], comps[j][6 + n..22 + n], comps[j][22 + n..];
              var appkey := crypto.hmac(key.value, crypto.sha256(appname));
              var verdict :=
                if mac == crypto.hmac(appkey, EncodeName(comps[..j]) + appname + state) then AuthOk
                else VerificationFailed;
              var st := HostState(state);
              match stored
              case None => (verdict, None)
              case Some(current) =>
                if st.sequence <= current.sequence then (DuplicateInterest, stored)
                else if !Fresh(now, st, maxDelay) then (CommandExpired, stored)
                else (verdict, Some(Raised(current, st, now)))
  {
    hide Extract, EncodeName, HostState, Fresh, Raised;
    var c := comps[j];
    ExtractRightmost(comps, j);
    KindLiterals(c);
    if 6 <= |c| && KindOf(c) == Symmetric {
      var a := c[4..];
      var n := NameLength(a);
      assert a[0] == c[4] && a[1] == c[5];
      if WellFormed(a) {
        assert AppName(a) == c[6..6 + n] && StateBytes(a) == c[6 + n..22 + n] && Mac(a) == c[22 + n..];
      }
    }
  }

  /** The other direction: whatever bytes the verifier accepts encode a name, and its
      components up to the rightmost authenticator are exactly what the signer builds
      from the components before it, for the state the authenticator carries. */
  lemma AcceptedIsSigned(crypto: Crypto, buf: Bytes, key: Bytes, stored: Option<State>, now: Clock, maxDelay: nat)
    returns (comps: seq<Bytes>, j: nat, st: State, appname: Bytes)
    requires Verify(crypto, buf, Some(key), stored, now, maxDelay).0 == AuthOk
    ensures buf == EncodeName(comps) && 0 < j < |comps| && |appname| < 65536
    ensures forall k | j < k < |comps| :: KindOf(comps[k]) == NotAuthenticator
    ensures EncodeName(comps[..j + 1]) ==
            Signed(crypto, st, EncodeName(comps[..j]), appname, crypto.hmac(key, crypto.sha256(appname)))
    ensures stored.Some? ==> stored.value.sequence < st.sequence && Fresh(now, st, maxDelay)
  {
    hide Verify, Extract, EncodeName, HostState, WellFormed, AppName, StateBytes, Mac, Fresh, Signed, AppKey;
    AcceptedFields(crypto, buf, key, stored, now, maxDelay);
    comps, j := FoundRightmost(buf);
    ExtractRightmost(comps, j);
    KindLiterals(comps[j]);
    st, appname := SignedByFields(crypto, comps[..j], comps[j], key);
    assert comps[..j + 1] == comps[..j] + [comps[j]];
  }

  /** What acceptance says about the extracted fields. */
  lemma AcceptedFields(crypto: Crypto, name: Bytes, key: Bytes, stored: Option<State>, now: Clock, maxDelay: nat)
    requires Verify(crypto, name, Some(key), stored, now, maxDelay).0 == AuthOk
    ensures Extract(name).Found? && Extract(name).kind != Asymmetric
    ensures var a := Extract(name).authenticator;
            && 4 <= |a| && WellFormed(a[4..])
            && var f := a[4..];
            && Mac(f) == crypto.hmac(AppKey(crypto, key, AppName(f)), Extract(name).prefix + AppName(f) + StateBytes(f))
            && (stored.Some? ==>
                  && stored.value.sequence < HostState(StateBytes(f)).sequence
                  && Fresh(now, HostState(StateBytes(f)), maxDelay))
  {
    hide Extract, HostState, Fresh, WellFormed, AppName, StateBytes, Mac;
  }

  lemma FieldsJoin(a: Bytes)
    requires WellFormed(a)
    ensures a == LengthBytes(|AppName(a)|) + AppName(a) + StateBytes(a) + Mac(a)
    ensures |AppName(a)| < 65536
  {
    var n := NameLength(a);
    assert n / 256 == a[0] && n % 256 == a[1];
    assert a[..2] == LengthBytes(n);
    assert a == a[..2] + a[2..2 + n] + a[2 + n..2 + n + 16] + a[2 + n + 16..];
  }

  // ----- Runs of verifications on one state -----

  datatype Call = Call(name: Bytes, key: Option<Bytes>, now: Clock, maxDelay: nat)

  /** The state in the authenticator the verifier would check. */
  function Carried(name: Bytes): Option<State> {
    match Extract(name)
    case Missing => None
    case Found(kind, a, _) =>
      if kind != Asymmetric && 4 <= |a| && WellFormed(a[4..]) then Some(HostState(StateBytes(a[4..]))) else None
  }

  /** A well-formed command, fresh when it arrives, checked with some key.  Its MAC and
      the stored state play no part. */
  predicate Timely(c: Call) {
    && c.key.Some? && c.key.value != []
    && Carried(c.name).Some? && Fresh(c.now, Carried(c.name).value, c.maxDelay)
  }

  function SequenceOf(c: Call): Word
    requires Timely(c)
  {
    Carried(c.name).value.sequence
  }

  predicate Moves(st: State, c: Call) {
    Timely(c) && st.sequence < SequenceOf(c)
  }

  /** One call moves the stored state exactly when the command is timely and newer,
      whether or not its MAC then agrees; the MAC decides between the two verdicts. */
  lemma VerifyStep(crypto: Crypto, st: State, c: Call)
    ensures var (v, after) := Verify(crypto, c.name, c.key, Some(st), c.now, c.maxDelay);
            && after == Some(if Moves(st, c) then Raised(st, Carried(c.name).value, c.now) else st)
            && (v == AuthOk || v == VerificationFailed <==> Moves(st, c))
  {
    hide Extract, HostState, StateBytes, Fresh, WellFormed, AppName, Mac, Raised;
  }

  function RunCalls(crypto: Crypto, st: State, calls: seq<Call>): (r: (State, seq<Verdict>))
    ensures |r.1| == |calls|
    decreases |calls|
  {
    if calls == [] then (st, [])
    else
      VerifyStep(crypto, st, calls[0]);
      var (v, after) := Verify(crypto, calls[0].name, calls[0].key, Some(st), calls[0].now, calls[0].maxDelay);
      var (last, rest) := RunCalls(crypto, after.value, calls[1..]);
      (last, [v] + rest)
  }

  /** No timely call before `n` carries a sequence of `bound` or more. */
  ghost predicate Below(calls: seq<Call>, n: nat, bound: int)
    requires n <= |calls|
  {
    forall i | 0 <= i < n && Timely(calls[i]) :: SequenceOf(calls[i]) < bound
  }

  /** Over any run, genuine or not, the stored sequence ends as the maximum of the
      first one and those of the timely calls. */
  lemma {:induction false} StoredIsMaximum(crypto: Crypto, st: State, calls: seq<Call>)
    ensures var last := RunCalls(crypto, st, calls).0.sequence;
            && st.sequence <= last && Below(calls, |calls|, last + 1)
            && (last == st.sequence || exists i | 0 <= i < |calls| && Timely(calls[i]) :: SequenceOf(calls[i]) == last)
    decreases |calls|
  {
    hide Verify, Carried, Fresh;
    if calls != [] {
      VerifyStep(crypto, st, calls[0]);
      var after := Verify(crypto, calls[0].name, calls[0].key, Some(st), calls[0].now, calls[0].maxDelay).1.value;
      StoredIsMaximum(crypto, after, calls[1..]);
      assert forall i | 1 <= i < |calls| :: calls[i] == calls[1..][i - 1];
    }
  }

  /** The verdict of one call of a run is that of the state the calls before it left. */
  lemma {:induction false} VerdictAt(crypto: Crypto, st: State, calls: seq<Call>, m: nat)
    requires m < |calls|
    ensures RunCalls(crypto, st, calls).1[m] ==
            Verify(crypto, calls[m].name, calls[m].key, Some(RunCalls(crypto, st, calls[..m]).0), calls[m].now,
                   calls[m].maxDelay).0
    decreases |calls|
  {
    hide Verify;
    if m != 0 {
      VerifyStep(crypto, st, calls[0]);
      var after := Verify(crypto, calls[0].name, calls[0].key, Some(st), calls[0].now, calls[0].maxDelay).1.value;
      VerdictAt(crypto, after, calls[1..], m - 1);
      assert calls[..m][1..] == calls[1..][..m - 1];
    }
  }

  /** A call of a run reaches the MAC comparison iff it is timely and newer than the
      first state and every timely call before it. */
  lemma ReachesMac(crypto: Crypto, st: State, calls: seq<Call>, m: nat)
    requires m < |calls|
    ensures var v := RunCalls(crypto, st, calls).1[m];
            v == AuthOk || v == VerificationFailed <==>
            Timely(calls[m]) && st.sequence < SequenceOf(calls[m]) && Below(calls, m, SequenceOf(calls[m]))
  {
    hide Verify, Timely, SequenceOf, RunCalls;
    var before := RunCalls(crypto, st, calls[..m]).0;
    VerdictAt(crypto, st, calls, m);
    VerifyStep(crypto, before, calls[m]);
    StoredIsMaximum(crypto, st, calls[..m]);
    assert forall i | 0 <= i < m :: calls[..m][i] == calls[i];
  }

  /** Every accepted command of a run is newer than the state the run started from. */
  lemma AcceptedAreNewer(crypto: Crypto, st: State, calls: seq<Call>, j: nat)
    requires j < |calls| && RunCalls(crypto, st, calls).1[j] == AuthOk
    ensures Timely(calls[j]) && st.sequence < SequenceOf(calls[j])
  {
    ReachesMac(crypto, st, calls, j);
  }

  /** Over any run accepted sequences strictly increase, so no command is accepted
      twice. */
  lemma NeverAcceptedTwice(crypto: Crypto, st: State, calls: seq<Call>, i: nat, j: nat)
    requires i < j < |calls|
    requires RunCalls(crypto, st, calls).1[i] == AuthOk && RunCalls(crypto, st, calls).1[j] == AuthOk
    ensures Timely(calls[i]) && Timely(calls[j]) && SequenceOf(calls[i]) < SequenceOf(calls[j])
    ensures calls[i].name != calls[j].name
  {
    hide Verify, RunCalls;
    ReachesMac(crypto, st, calls, i);
    ReachesMac(crypto, st, calls, j);
  }

  /** After a timely call with the largest sequence, forged or not, nothing is accepted. */
  lemma MaximumLocksOut(crypto: Crypto, st: State, calls: seq<Call>, i: nat, j: nat)
    requires i < j < |calls| && Timely(calls[i]) && SequenceOf(calls[i]) == 0xFFFF_FFFF
    ensures RunCalls(crypto, st, calls).1[j] != AuthOk
  {
    hide Verify, RunCalls;
    ReachesMac(crypto, st, calls, j);
  }

  /** A command with any MAC carries its state. */
  lemma CarriedAppended(comps: seq<Bytes>, st: State, appname: Bytes, mac: Digest)
    requires comps != [] && |appname| < 65536
    ensures Carried(Append(EncodeName(comps), SK_AUTH_MAGIC + Fields(st, appname, mac))) == Some(st)
  {
    hide Extract, EncodeName, KindOf, Append, Fields, HostState, WellFormed, StateBytes;
    ExtractAppended(comps, Fields(st, appname, mac));
    MagicFirst(Fields(st, appname, mac));
    AuthenticatorFields(st, appname, mac);
  }

  /** One forged command with the largest sequence, fresh when it arrives, is enough:
      no call after it is accepted. */
  lemma ForgedLocksOut(
    crypto: Crypto, st: State, calls: seq<Call>, i: nat, j: nat, forged: State, comps: seq<Bytes>, appname: Bytes,
    mac: Digest)
    requires i < j < |calls| && comps != [] && |appname| < 65536 && forged.sequence == 0xFFFF_FFFF
    requires calls[i].name == Append(EncodeName(comps), SK_AUTH_MAGIC + Fields(forged, appname, mac))
    requires calls[i].key.Some? && calls[i].key.value != [] && Fresh(calls[i].now, forged, calls[i].maxDelay)
    ensures RunCalls(crypto, st, calls).1[j] != AuthOk
  {
    hide Verify, RunCalls, EncodeName, Fields, Append, Carried, Fresh;
    CarriedAppended(comps, forged, appname, mac);
    MaximumLocksOut(crypto, st, calls, i, j);
  }

  /** In any run a genuine command, delivered fresh and with its key, is accepted iff it
      is newer than the first state and than every timely call before it. */
  lemma GenuineInAnyRun(
    crypto: Crypto, start: State, calls: seq<Call>, m: nat, st: State, comps: seq<Bytes>, appname: Bytes, key: Bytes)
    requires m < |calls| && comps != [] && |appname| < 65536 && key != []
    requires calls[m].name == Signed(crypto, st, EncodeName(comps), appname, crypto.hmac(key, crypto.sha256(appname)))
    requires calls[m].key == Some(key) && Fresh(calls[m].now, st, calls[m].maxDelay)
    ensures RunCalls(crypto, start, calls).1[m] == AuthOk <==>
            start.sequence < st.sequence && Below(calls, m, st.sequence)
  {
    hide Verify, RunCalls, EncodeName, Fields, Append, Carried, Fresh, Below;
    var c, mac := calls[m], SignerMac(crypto, st, EncodeName(comps), appname, crypto.hmac(key, crypto.sha256(appname)));
    CarriedAppended(comps, st, appname, mac);
    ReachesMac(crypto, start, calls, m);
    VerdictAt(crypto, start, calls, m);
    SignedVerdict(crypto, st, comps, appname, key, RunCalls(crypto, start, calls[..m]).0, c.now, c.maxDelay);
  }

  // ----- Genuine commands -----

  datatype Job = Job(comps: seq<Bytes>, appname: Bytes, now: Clock)

  predicate Signable(job: Job) { job.comps != [] && |job.appname| < 65536 }

  /** The signer's state after its first `k` commands. */
  function SignerState(st: State, jobs: seq<Job>, k: nat): State
    requires k <= |jobs|
  {
    if k == 0 then st else Updated(SignerState(st, jobs, k - 1), jobs[k - 1].now)
  }

  function Command(crypto: Crypto, key: Bytes, st: State, jobs: seq<Job>, k: nat): Bytes
    requires k < |jobs|
  {
    var job := jobs[k];
    var appkey := crypto.hmac(key, crypto.sha256(job.appname));
    Signed(crypto, SignerState(st, jobs, k + 1), EncodeName(job.comps), job.appname, appkey)
  }

  lemma SignerSequence(st: State, jobs: seq<Job>, k: nat)
    requires k <= |jobs| && st.sequence + k < 0x1_0000_0000
    ensures SignerState(st, jobs, k).sequence == st.sequence + k
  {
  }

  /** The arrival clock is less than the delay and one millisecond away from the signing
      clock. */
  predicate Arrives(signed: Clock, arrived: Clock, maxDelay: nat) {
    var d := (arrived.sec - signed.sec) * 1000000 + arrived.usec - signed.usec;
    WordClock(signed) && (maxDelay == 0 || -1000 * (maxDelay + 1) < d < 1000 * (maxDelay + 1))
  }

  /** `c` delivers the signer's command number `k` within its delay. */
  predicate Delivers(crypto: Crypto, key: Bytes, st: State, jobs: seq<Job>, k: nat, c: Call) {
    && k < |jobs| && c.name == Command(crypto, key, st, jobs, k) && c.key == Some(key)
    && Arrives(jobs[k].now, c.now, c.maxDelay)
  }

  lemma ArrivesFresh(st: State, signed: Clock, arrived: Clock, maxDelay: nat)
    requires Arrives(signed, arrived, maxDelay)
    ensures Fresh(arrived, Updated(st, signed), maxDelay)
  {
    if maxDelay != 0 {
      SignedFresh(st, signed, arrived, maxDelay);
    }
  }

  /** Any in-order selection of one signer's fresh commands is accepted in full, as
      long as the signer's 32-bit counter has not wrapped. */
  lemma {:induction false} GenuineAccepted(
    crypto: Crypto, key: Bytes, signer: State, jobs: seq<Job>, verifier: State, calls: seq<Call>, picks: seq<nat>)
    requires key != [] && signer.sequence + |jobs| < 0x1_0000_0000
    requires forall k | 0 <= k < |jobs| :: Signable(jobs[k])
    requires |picks| == |calls| && forall m, n | 0 <= m < n < |picks| :: picks[m] < picks[n]
    requires forall m | 0 <= m < |calls| :: Delivers(crypto, key, signer, jobs, picks[m], calls[m])
    requires picks != [] ==> verifier.sequence <= signer.sequence + picks[0]
    ensures forall m | 0 <= m < |calls| :: RunCalls(crypto, verifier, calls).1[m] == AuthOk
    decreases |calls|
  {
    hide Verify, Signed, Fresh, EncodeName;
    if calls != [] {
      var k, c := picks[0], calls[0];
      var st := SignerState(signer, jobs, k + 1);
      assert Delivers(crypto, key, signer, jobs, k, c) && Signable(jobs[k]);
      SignerSequence(signer, jobs, k + 1);
      ArrivesFresh(SignerState(signer, jobs, k), jobs[k].now, c.now, c.maxDelay);
      SignedVerdict(crypto, st, jobs[k].comps, jobs[k].appname, key, verifier, c.now, c.maxDelay);
      GenuineAccepted(crypto, key, signer, jobs, Raised(verifier, st, c.now), calls[1..], picks[1..]);
    }
  }

  /** After 2^32 commands the counter is 0 again, and such a command is refused by
      every verifier state. */
  lemma WrappedRefused(
    crypto: Crypto, st: State, signTime: Clock, comps: seq<Bytes>, appname: Bytes, key: Bytes, current: State,
    now: Clock, maxDelay: nat)
    requires st.sequence == 0xFFFF_FFFF && comps != [] && |appname| < 65536 && key != []
    ensures var appkey := crypto.hmac(key, crypto.sha256(appname));
            var name := Signed(crypto, Updated(st, signTime), EncodeName(comps), appname, appkey);
            Verify(crypto, name, Some(key), Some(current), now, maxDelay) == (DuplicateInterest, Some(current))
  {
    hide Verify, Signed, EncodeName, Fresh;
    SignedVerdict(crypto, Updated(st, signTime), comps, appname, key, current, now, maxDelay);
  }
}
