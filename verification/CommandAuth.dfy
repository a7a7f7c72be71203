/** The signer and verifier as the program runs them: state and buffers updated in
    place, each proved against the functions of `Authentication`. */
module CommandAuth {
  import opened Options
  import opened Ndnb
  import opened NameWire
  import opened Authentication

  class AuthState {
    var tvSec: Word
    var tvUsec: Word
    var sequence: Word
    var rsvd: Word

    function Value(): State
      reads this
    {
      State(tvSec, tvUsec, sequence, rsvd)
    }

    /** `state_init` */
    constructor ()
      ensures Value() == State(0, 0, 0, 0)
    {
      tvSec, tvUsec, sequence, rsvd := 0, 0, 0, 0;
    }

    method Update(now: Clock)
      modifies this
      ensures Value() == Updated(old(Value()), now)
    {
      tvSec := ToWord(now.sec);
      tvUsec := ToWord(now.usec);
      sequence := ToWord(sequence + 1);
    }
  }

  class CharBuf {
    var buf: Bytes

    constructor (buf: Bytes)
      ensures this.buf == buf
    {
      this.buf := buf;
    }
  }

  ghost function Stored(st: AuthState?): Option<State>
    reads st
  {
    if st == null then None else Some(st.Value())
  }

  /** `memcpy` to `dst + at`: what is before stays, what is after stays. */
  method MemCpy(dst: array<Byte>, at: nat, src: Bytes)
    requires at + |src| <= dst.Length
    modifies dst
    ensures dst[..at + |src|] == old(dst[..at]) + src
    ensures dst[at + |src|..] == old(dst[at + |src|..])
  {
    var i := 0;
    while i < |src|
      invariant 0 <= i <= |src|
      invariant dst[..at + i] == old(dst[..at]) + src[..i]
      invariant dst[at + i..] == old(dst[at + i..])
    {
      dst[at + i] := src[i];
      i := i + 1;
    }
  }

  /** The bytes the MAC is computed over. */
  method Message(name: Bytes, appname: Bytes, state: Bytes) returns (m: Bytes)
    ensures m == name + appname + state
  {
    var a := new Byte[|name| + |appname| + |state|];
    MemCpy(a, 0, name);
    MemCpy(a, |name|, appname);
    MemCpy(a, |name| + |appname|, state);
    assert a[..] == a[..|name| + |appname| + |state|];
    return a[..];
  }

  /** The authenticator component, laid out field by field. */
  method Component(appname: Bytes, netSt: Bytes, mac: Digest) returns (a: array<Byte>)
    requires |netSt| == 16
    ensures a[..] == SK_AUTH_MAGIC + (LengthBytes(|appname|) + appname + netSt + mac)
  {
    var appnameLen := |appname|;
    var stateOffset := 4 + 2 + appnameLen;
    var macOffset := stateOffset + 16;
    a := new Byte[macOffset + 32];
    MemCpy(a, 0, SK_AUTH_MAGIC);
    assert a[..4] == SK_AUTH_MAGIC;
    a[4], a[5] := appnameLen / 256 % 256, appnameLen % 256;
    assert a[..6] == a[..4] + [a[4], a[5]] && a[..4] == SK_AUTH_MAGIC;
    assert a[..6] == SK_AUTH_MAGIC + LengthBytes(appnameLen);
    ghost var head := a[..6];
    MemCpy(a, 6, appname);
    assert a[..stateOffset] == head + appname;
    MemCpy(a, stateOffset, netSt);
    assert a[..macOffset] == head + appname + netSt;
    MemCpy(a, macOffset, mac);
    assert a[..] == a[..macOffset + 32] == head + appname + netSt + mac;
  }

  method AuthenticateCommand(
    crypto: Crypto, st: AuthState, commandname: CharBuf, appname: Bytes, appkey: Bytes, now: Clock)
    requires commandname.buf != []
    modifies st, commandname
    ensures st.Value() == Updated(old(st.Value()), now)
    ensures commandname.buf == Signed(crypto, st.Value(), old(commandname.buf), appname, appkey)
  {
    hide NetState, Append, LengthBytes;
    st.Update(now);
    var netSt := NetState(st.Value());
    var m := Message(commandname.buf, appname, netSt);
    var mac := crypto.hmac(appkey, m);
    var a := Component(appname, netSt, mac);
    commandname.buf := Append(commandname.buf, a[..]);
  }

  method ExtractFromInterest(name: Bytes) returns (r: Extraction)
    ensures r == Extract(name)
  {
    hide SplitName, CompGet, Detect;
    var nix := SplitName(name);
    if nix.None? {
      return Missing;
    }
    var i := |nix.value| - 2;
    while i > 0
      invariant i <= |nix.value| - 2
      invariant 0 <= i ==> Extract(name) == ScanFrom(name, nix.value, i)
      invariant i < 0 ==> Extract(name) == Missing
    {
      var got := CompGet(name, nix.value, i);
      if got.None? {
        return Missing;
      }
      var (out, size) := got.value;
      var kind := Detect(name, out);
      if kind != NotAuthenticator {
        var before := CompGet(name, nix.value, i - 1);
        if before.None? {
          return Missing;
        }
        var (prev, length) := before.value;
        return Found(kind, name[out..out + size], name[..length + prev + 1] + [0]);
      }
      i := i - 1;
    }
    return Missing;
  }

  method VerifyUpdateStateFreshness(currstate: AuthState?, st: State, now: Clock, maxDelay: nat)
    returns (v: Verdict)
    modifies currstate
    ensures (v, Stored(currstate)) == CheckState(old(Stored(currstate)), st, now, maxDelay)
  {
    if currstate == null {
      return StateNotVerified;
    }
    if currstate.sequence >= st.sequence {
      return DuplicateInterest;
    }
    if maxDelay > 0 {
      var micros := ToInt32((now.sec - st.tvSec) * 1000000 + now.usec - st.tvUsec);
      // C division rounds toward zero.
      var diff := if micros < 0 then -(-micros / 1000) else micros / 1000;
      if Abs(diff) > maxDelay {
        return CommandExpired;
      }
    }
    currstate.sequence := st.sequence;
    currstate.tvSec := ToWord(now.sec);
    currstate.tvUsec := ToWord(now.usec);
    return AuthOk;
  }

  method VerifyCommandSymm(
    crypto: Crypto, authenticator: Bytes, commandName: Bytes, key: Bytes, currstate: AuthState?, now: Clock,
    maxDelay: nat)
    returns (v: Verdict)
    modifies currstate
    ensures (v, Stored(currstate)) ==
            VerifySymm(crypto, authenticator, commandName, key, old(Stored(currstate)), now, maxDelay)
  {
    hide HostState, Fresh;
    if |authenticator| < 2 {
      return Aborted;
    }
    var appnameLen := NameLength(authenticator);
    var stateOffset := 2 + appnameLen;
    var macOffset := stateOffset + 16;
    if |authenticator| != macOffset + 32 {
      return Aborted;
    }
    var appname := authenticator[2..stateOffset];
    var netSt := authenticator[stateOffset..macOffset];
    var stateRet := VerifyUpdateStateFreshness(currstate, HostState(netSt), now, maxDelay);
    if stateRet != AuthOk && stateRet != StateNotVerified {
      return stateRet;
    }
    var appKey := AppKey(crypto, key, appname);
    var m := Message(commandName, appname, netSt);
    var computed := crypto.hmac(appKey, m);
    if computed != authenticator[macOffset..] {
      return VerificationFailed;
    }
    return AuthOk;
  }

  method VerifyCommand(
    crypto: Crypto, name: CharBuf, key: Option<Bytes>, currstate: AuthState?, now: Clock, maxDelay: nat)
    returns (v: Verdict)
    modifies currstate
    ensures (v, Stored(currstate)) == Verify(crypto, name.buf, key, old(Stored(currstate)), now, maxDelay)
  {
    hide VerifySymm, Extract;
    var r := ExtractFromInterest(name.buf);
    match r {
      case Missing =>
        return MissingAuthenticator;
      case Found(kind, a, prefix) =>
        if kind == Asymmetric || key.None? || key.value == [] {
          return KeyNotProvided;
        }
        if |a| < 4 {
          return Aborted;
        }
        v := VerifyCommandSymm(crypto, a[4..], prefix, key.value, currstate, now, maxDelay);
    }
  }
}
