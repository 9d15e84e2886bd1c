/** The one-time-passcode store of Service/OTPService.java: one pending code and
    one expiry instant per email, kept in two maps that are updated in place.
    The clock reading and the random draw are parameters. */
module Otp {

  /** Five minutes, in milliseconds. */
  const OTP_EXPIRY_DURATION: int := 5 * 60 * 1000

  /** The values `new Random().nextInt(999999)` can return: 999999 is excluded. */
  type Draw = r: int | 0 <= r < 999999

  // ---------------------------------------------------------------------
  // Codes: the zero-padded decimal form of the draw

  predicate IsDigit(c: char) {
    '0' <= c <= '9'
  }

  predicate AllDigits(s: string) {
    forall i :: 0 <= i < |s| ==> IsDigit(s[i])
  }

  function Pow10(n: nat): nat {
    if n == 0 then 1 else 10 * Pow10(n - 1)
  }

  /** The number a string of decimal digits denotes, most significant first. */
  function DecimalValue(s: string): nat
    requires AllDigits(s)
  {
    if s == [] then 0
    else DecimalValue(s[..|s| - 1]) * 10 + (s[|s| - 1] as int - '0' as int)
  }

  /** The decimal form of `v`, left-padded with zeros to `width` characters. */
  function ZeroPadded(v: nat, width: nat): (s: string)
    requires v < Pow10(width)
    ensures |s| == width && AllDigits(s)
    ensures DecimalValue(s) == v
  {
    if width == 0 then []
    else
      var prefix := ZeroPadded(v / 10, width - 1);
      var s := prefix + [('0' as int + v % 10) as char];
      assert s[..|s| - 1] == prefix;
      s
  }

  /** `String.format("%06d", r)`: six ASCII digits that read back as the draw. */
  function FormatCode(r: Draw): (otp: string)
    ensures |otp| == 6 && AllDigits(otp)
    ensures DecimalValue(otp) == r
  {
    assert Pow10(6) == 1000000;
    ZeroPadded(r, 6)
  }

  /** `k` nines. */
  function Nines(k: nat): (s: string)
    ensures |s| == k && AllDigits(s)
  {
    if k == 0 then [] else Nines(k - 1) + ['9']
  }

  /** The largest number `k` digits can write. */
  lemma {:induction false} NinesValue(k: nat)
    ensures DecimalValue(Nines(k)) == Pow10(k) - 1
  {
    if k > 0 {
      NinesValue(k - 1);
      assert Nines(k)[..k - 1] == Nines(k - 1);
    }
  }

  /** Because the draw is below 999999, the code "999999" is never issued:
      the codes are "000000" to "999998". */
  lemma NeverAllNines(r: Draw)
    ensures FormatCode(r) != "999999"
  {
    NinesValue(6);
    assert Nines(6) == "999999";
  }

  /** Distinct draws give distinct codes. */
  lemma FormatCodeInjective(r1: Draw, r2: Draw)
    requires r1 != r2
    ensures FormatCode(r1) != FormatCode(r2)
  {
  }

  // ---------------------------------------------------------------------
  // The store as a value: what the two maps hold

  datatype Store = Store(codes: map<string, string>, expiry: map<string, int>) {
    /** Every operation puts into or removes from both maps together. */
    predicate Valid() {
      codes.Keys == expiry.Keys
    }
  }

  const Empty: Store := Store(map[], map[])

  /** `e` has the same entry (or the same absence of one) in both stores. */
  predicate SameEntry(s: Store, t: Store, e: string) {
    (e in s.codes <==> e in t.codes) && (e in s.codes ==> t.codes[e] == s.codes[e]) &&
    (e in s.expiry <==> e in t.expiry) && (e in s.expiry ==> t.expiry[e] == s.expiry[e])
  }

  /** The effect of `generateOTP(email)` at time `now` with code `otp`. */
  function Issue(s: Store, email: string, otp: string, now: int): (t: Store)
    ensures email in t.codes && t.codes[email] == otp
    ensures email in t.expiry && t.expiry[email] == now + OTP_EXPIRY_DURATION
    ensures forall e :: e != email ==> SameEntry(s, t, e)
    ensures s.Valid() ==> t.Valid()
  {
    Store(s.codes[email := otp], s.expiry[email := now + OTP_EXPIRY_DURATION])
  }

  datatype Verified = Verified(ok: bool, store: Store)

  /** The effect and answer of `verifyOTP(email, otp)` at time `now`. */
  function Verify(s: Store, email: string, otp: string, now: int): (v: Verified)
    requires s.Valid()
    ensures v.store.Valid()
    // accepted exactly when an unexpired entry holds the same code
    ensures v.ok <==> email in s.codes && now <= s.expiry[email] && s.codes[email] == otp
    // no entry: nothing changes
    ensures email !in s.codes ==> v.store == s
    // expired: the entry is removed, even if the code matches
    ensures email in s.codes && now > s.expiry[email] ==> email !in v.store.codes
    // live but different: the entry stays
    ensures email in s.codes && now <= s.expiry[email] && s.codes[email] != otp ==> v.store == s
    // accepted: the entry is consumed
    ensures v.ok ==> email !in v.store.codes
    ensures forall e :: e != email ==> SameEntry(s, v.store, e)
  {
    if email !in s.codes then Verified(false, s)
    else if now > s.expiry[email] then Verified(false, Store(s.codes - {email}, s.expiry - {email}))
    else if s.codes[email] != otp then Verified(false, s)
    else Verified(true, Store(s.codes - {email}, s.expiry - {email}))
  }

  // ---------------------------------------------------------------------
  // The service object

  class OTPService {
    var otpStore: map<string, string>
    var otpExpiry: map<string, int>

    /** The abstract value of the two maps. */
    function State(): Store
      reads this
    {
      Store(otpStore, otpExpiry)
    }

    ghost predicate Valid()
      reads this
    {
      State().Valid()
    }

    constructor ()
      ensures Valid() && State() == Empty
    {
      otpStore := map[];
      otpExpiry := map[];
    }

    /** Draws a code, stores it with its expiry (overwriting any earlier entry
        for `email`) and returns it. */
    method GenerateOTP(email: string, r: Draw, now: int) returns (otp: string)
      modifies this
      ensures otp == FormatCode(r)
      ensures State() == Issue(old(State()), email, otp, now)
      ensures old(Valid()) ==> Valid()
    {
      otp := FormatCode(r);
      otpStore := otpStore[email := otp];
      otpExpiry := otpExpiry[email := now + OTP_EXPIRY_DURATION];
    }

    /** Checks `otp` against the pending entry for `email`, removing the entry
        when it has expired or when it matches. */
    method VerifyOTP(email: string, otp: string, now: int) returns (ok: bool)
      requires Valid()
      modifies this
      ensures Valid()
      ensures Verified(ok, State()) == Verify(old(State()), email, otp, now)
    {
      if email !in otpStore {
        return false;
      }
      var storedOtp := otpStore[email];
      var expiryTime := otpExpiry[email];
      if now > expiryTime {
        otpStore := otpStore - {email};
        otpExpiry := otpExpiry - {email};
        return false;
      }
      if storedOtp != otp {
        return false;
      }
      otpStore := otpStore - {email};
      otpExpiry := otpExpiry - {email};
      return true;
    }
  }

  // ---------------------------------------------------------------------
  // Properties of single calls and of sequences of calls

  /** A second `verifyOTP` after an accepted one is refused, whatever the code
      and the time: there is no replay. */
  lemma NoReplay(s: Store, email: string, otp: string, now: int, otp': string, later: int)
    requires s.Valid() && Verify(s, email, otp, now).ok
    ensures !Verify(Verify(s, email, otp, now).store, email, otp', later).ok
  {
  }

  /** Issuing twice for one email leaves one entry, holding the second code;
      the first code is no longer accepted. */
  lemma ReissueReplacesCode(s: Store, email: string, r1: Draw, t1: int, r2: Draw, t2: int, now: int)
    requires s.Valid() && r1 != r2
    ensures Issue(Issue(s, email, FormatCode(r1), t1), email, FormatCode(r2), t2).codes[email] == FormatCode(r2)
    ensures !Verify(Issue(Issue(s, email, FormatCode(r1), t1), email, FormatCode(r2), t2), email, FormatCode(r1), now).ok
  {
    FormatCodeInjective(r1, r2);
  }

  /** The expiry comparison is strict: a code is still accepted at its expiry
      instant and refused (and removed) one millisecond later. */
  lemma ExpiryBoundary(s: Store, email: string, r: Draw, now: int)
    requires s.Valid()
    ensures Verify(Issue(s, email, FormatCode(r), now), email, FormatCode(r), now + OTP_EXPIRY_DURATION).ok
    ensures !Verify(Issue(s, email, FormatCode(r), now), email, FormatCode(r), now + OTP_EXPIRY_DURATION + 1).ok
    ensures email !in Verify(Issue(s, email, FormatCode(r), now), email, FormatCode(r), now + OTP_EXPIRY_DURATION + 1).store.codes
  {
  }

  /** One call on the service. */
  datatype Call =
    | Generate(email: string, r: Draw, now: int)
    | Check(email: string, otp: string, now: int)

  function After(s: Store, c: Call): (t: Store)
    requires s.Valid()
    ensures t.Valid()
  {
    match c
    case Generate(e, r, now) => Issue(s, e, FormatCode(r), now)
    case Check(e, otp, now) => Verify(s, e, otp, now).store
  }

  /** The store after a sequence of calls: the two key sets still agree. */
  function Run(s: Store, calls: seq<Call>): (t: Store)
    requires s.Valid()
    ensures t.Valid()
    decreases |calls|
  {
    if calls == [] then s else Run(After(s, calls[0]), calls[1..])
  }

  /** How many of `calls` are checks for `email` that are accepted. */
  function Accepted(s: Store, calls: seq<Call>, email: string): nat
    requires s.Valid()
    decreases |calls|
  {
    if calls == [] then 0
    else
      var c := calls[0];
      (if c.Check? && c.email == email && Verify(s, email, c.otp, c.now).ok then 1 else 0)
      + Accepted(After(s, c), calls[1..], email)
  }

  predicate NoGenerateFor(calls: seq<Call>, email: string) {
    forall i :: 0 <= i < |calls| ==> !(calls[i].Generate? && calls[i].email == email)
  }

  /** Between two issues for an email, at most one check for it is accepted,
      and none when no code is pending: a code is used at most once. */
  lemma {:induction false} AcceptedAtMostOnce(s: Store, calls: seq<Call>, email: string)
    requires s.Valid() && NoGenerateFor(calls, email)
    ensures Accepted(s, calls, email) <= (if email in s.codes then 1 else 0)
    decreases |calls|
  {
    if calls != [] {
      var c := calls[0];
      var t := After(s, c);
      assert NoGenerateFor(calls[1..], email) by {
        forall i | 0 <= i < |calls[1..]|
          ensures !(calls[1..][i].Generate? && calls[1..][i].email == email)
        {
          assert calls[1..][i] == calls[i + 1];
        }
      }
      AcceptedAtMostOnce(t, calls[1..], email);
      assert c.email != email ==> SameEntry(s, t, email);
    }
  }

  /** Whatever the store held before, an issued code is accepted at most once
      by any later calls that issue no new code for that email. */
  lemma IssuedCodeAcceptedAtMostOnce(s: Store, email: string, r: Draw, now: int, calls: seq<Call>)
    requires s.Valid() && NoGenerateFor(calls, email)
    ensures Accepted(Issue(s, email, FormatCode(r), now), calls, email) <= 1
  {
    AcceptedAtMostOnce(Issue(s, email, FormatCode(r), now), calls, email);
  }
}
