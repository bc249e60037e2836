/** What OCSP and CRL processing share: extension lists, certificates and the freshness check. */
module Revocation {
  import opened Wrappers
  import opened Der
  import opened DerTimes

  datatype Extension = Extension(critical: bool, value: Input)

  /** An optional Extensions field, as far as it parses; parsing rejects a repeated OID. */
  datatype ExtensionField = NoExtensions | MalformedExtensions | Extensions(byOid: map<Input, Extension>)

  /** The verification time, the maximum age, and EncodePosixTimeAsGeneralizedTime. */
  datatype Clock = Clock(verifyTime: int, maxAge: Option<int>, toTime: int -> Option<Time>)

  const MIN_VALID_TIME := -62167219200
  const MAX_VALID_TIME := 253402300799

  /** CheckRevocationDateValid of pki/revocation_util.cc. */
  predicate CheckRevocationDateValid(clock: Clock, thisUpdate: Time, nextUpdate: Option<Time>) {
    if clock.verifyTime > MAX_VALID_TIME || clock.verifyTime < MIN_VALID_TIME then false
    else if clock.maxAge.Some? && (clock.maxAge.value > MAX_VALID_TIME || clock.maxAge.value < 0) then false
    else
      var now := clock.toTime(clock.verifyTime);
      if now.None? then false
      else if Before(now.value, thisUpdate) then false
      else if nextUpdate.Some? && !Before(now.value, nextUpdate.value) then false
      else if clock.maxAge.Some? then
        var earliest := clock.toTime(clock.verifyTime - clock.maxAge.value);
        earliest.Some? && !Before(thisUpdate, earliest.value)
      else true
  }

  /** The conversion of POSIX time: defined on the years 0 to 9999, and keeping the order. */
  ghost predicate KeepsTime(toTime: int -> Option<Time>) {
    && (forall t :: toTime(t).Some? <==> MIN_VALID_TIME <= t <= MAX_VALID_TIME)
    && (forall t, u :: t <= u && toTime(t).Some? && toTime(u).Some? ==> !Before(toTime(u).value, toTime(t).value))
  }

  lemma BeforeIsTransitive(a: Time, b: Time, c: Time)
    ensures !Before(b, a) && !Before(c, b) ==> !Before(c, a)
    ensures !Before(b, a) && Before(b, c) ==> Before(a, c)
  {
  }

  /** A response is in date during one interval: in date at two moments, it is in date in between. */
  lemma InDateIsAnInterval(clock: Clock, from: int, at: int, until: int, thisUpdate: Time, nextUpdate: Option<Time>)
    requires KeepsTime(clock.toTime) && from <= at <= until
    requires CheckRevocationDateValid(clock.(verifyTime := from), thisUpdate, nextUpdate)
    requires CheckRevocationDateValid(clock.(verifyTime := until), thisUpdate, nextUpdate)
    ensures CheckRevocationDateValid(clock.(verifyTime := at), thisUpdate, nextUpdate)
  {
    var now := clock.toTime(at).value;
    BeforeIsTransitive(thisUpdate, clock.toTime(from).value, now);
    if nextUpdate.Some? {
      BeforeIsTransitive(now, clock.toTime(until).value, nextUpdate.value);
    }
    if clock.maxAge.Some? {
      var age := clock.maxAge.value;
      assert clock.toTime(from - age).Some? && clock.toTime(until - age).Some?;
      BeforeIsTransitive(clock.toTime(at - age).value, clock.toTime(until - age).value, thisUpdate);
    }
  }

  /** A response that expires no later than it starts is never in date. */
  lemma EmptyWindowIsNeverInDate(clock: Clock, thisUpdate: Time, nextUpdate: Time)
    requires !Before(thisUpdate, nextUpdate)
    ensures !CheckRevocationDateValid(clock, thisUpdate, Some(nextUpdate))
  {
    var now := clock.toTime(clock.verifyTime);
    if now.Some? {
      BeforeIsTransitive(nextUpdate, thisUpdate, now.value);
    }
  }

  /** When a response is in date, by the clock and its two times. */
  lemma InDateIff(clock: Clock, thisUpdate: Time, nextUpdate: Option<Time>)
    ensures CheckRevocationDateValid(clock, thisUpdate, nextUpdate) <==>
            && -62167219200 <= clock.verifyTime <= 253402300799 && clock.toTime(clock.verifyTime).Some?
            && !Before(clock.toTime(clock.verifyTime).value, thisUpdate)
            && (nextUpdate.Some? ==> Before(clock.toTime(clock.verifyTime).value, nextUpdate.value))
            && (clock.maxAge.Some? ==>
                  && 0 <= clock.maxAge.value <= 253402300799
                  && clock.toTime(clock.verifyTime - clock.maxAge.value).Some?
                  && !Before(thisUpdate, clock.toTime(clock.verifyTime - clock.maxAge.value).value))
  {
  }

  /** A larger maximum age, as far as it can be subtracted, or none at all, accepts at least as much. */
  lemma LargerAgeAcceptsMore(clock: Clock, larger: int, thisUpdate: Time, nextUpdate: Option<Time>)
    requires KeepsTime(clock.toTime) && clock.maxAge.Some? && clock.maxAge.value <= larger <= MAX_VALID_TIME
    requires CheckRevocationDateValid(clock, thisUpdate, nextUpdate)
    ensures CheckRevocationDateValid(clock.(maxAge := None), thisUpdate, nextUpdate)
    ensures MIN_VALID_TIME <= clock.verifyTime - larger ==>
              CheckRevocationDateValid(clock.(maxAge := Some(larger)), thisUpdate, nextUpdate)
  {
    var t, u := clock.verifyTime - larger, clock.verifyTime - clock.maxAge.value;
    if MIN_VALID_TIME <= t {
      BeforeIsTransitive(clock.toTime(t).value, clock.toTime(u).value, thisUpdate);
    }
  }

  /** Permutations have the same members. */
  lemma SameMembers<T>(a: seq<T>, b: seq<T>)
    requires multiset(a) == multiset(b)
    ensures |a| == |b| && forall x :: x in a <==> x in b
  {
    assert |a| == |multiset(a)| == |b|;
    assert forall x :: x in a <==> x in multiset(a);
    assert forall x :: x in b <==> x in multiset(b);
  }
}
