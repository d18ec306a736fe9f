/** `OtpService`: one-time login codes for patients. Generating a code appends a fresh unused
    row that expires ten minutes later; validating a code marks the first matching row that is
    unused and not yet expired as used. Each row goes from unused to used once, and never back.
 */
module OtpService {
  import opened Base
  import opened Text
  import opened Guids
  import opened Entities
  import opened Store

  const CodeFrom: int := 100000
  /** The upper bound of `GetInt32` is exclusive, so 999999 itself is never drawn. */
  const CodeToExclusive: int := 999999
  const Lifetime: int := Minutes(10)

  /** `RandomNumberGenerator.GetInt32(fromInclusive, toExclusive)`, given the raw random draw
      `sample`: every value of the half-open range, and only those, can come out. */
  function GetInt32(fromInclusive: int, toExclusive: int, sample: nat): (r: int)
    requires fromInclusive < toExclusive
    ensures fromInclusive <= r < toExclusive
  {
    fromInclusive + sample % (toExclusive - fromInclusive)
  }

  /** Every value of the range is drawn by some sample. */
  lemma GetInt32Covers(fromInclusive: int, toExclusive: int, v: int)
    requires fromInclusive <= v < toExclusive
    ensures GetInt32(fromInclusive, toExclusive, (v - fromInclusive) as nat) == v
  {
  }

  /** The code text for a draw. */
  function CodeFor(sample: nat): string {
    DecimalString(GetInt32(CodeFrom, CodeToExclusive, sample) as nat)
  }

  /** A code is always six decimal digits and is never "999999". */
  lemma CodeShape(sample: nat)
    ensures |CodeFor(sample)| == 6
    ensures forall i :: 0 <= i < 6 ==> IsDigit(CodeFor(sample)[i])
    ensures CodeFor(sample) != "999999"
  {
    var n := GetInt32(CodeFrom, CodeToExclusive, sample) as nat;
    assert Pow10(5) == 100000 && Pow10(6) == 1000000;
    DecimalLength(n, 6);
    DecimalRoundTrip(n);
    assert "99"[..1] == "9";
    assert "999"[..2] == "99";
    assert "9999"[..3] == "999";
    assert "99999"[..4] == "9999";
    assert "999999"[..5] == "99999";
    assert DecimalValue("999999") == 999999;
  }

  /** The row a code is checked against may still be redeemed at instant `now`: same patient,
      the very same code text, unused, and strictly before its expiry. */
  predicate Redeemable(o: Otp, patientId: Guid, code: string, now: Instant) {
    o.patientId == patientId && o.code == code && !o.isUsed && o.expiresAt > now
  }

  /** Position of the first redeemable row, or `|otps|` when there is none. */
  function FirstRedeemable(otps: seq<Otp>, patientId: Guid, code: string, now: Instant): (k: nat)
    ensures k <= |otps|
    ensures k < |otps| ==> Redeemable(otps[k], patientId, code, now)
    ensures forall i :: 0 <= i < k ==> !Redeemable(otps[i], patientId, code, now)
  {
    if otps == [] then 0
    else if Redeemable(otps[0], patientId, code, now) then 0
    else 1 + FirstRedeemable(otps[1..], patientId, code, now)
  }

  /** The OTP table after validating `code` at `now`: None when the code is refused, else the
      table with the first redeemable row marked used. */
  function Redeem(otps: seq<Otp>, patientId: Guid, code: string, now: Instant): Option<seq<Otp>> {
    var k := FirstRedeemable(otps, patientId, code, now);
    if k == |otps| then None else Some(otps[k := otps[k].(isUsed := true)])
  }

  /** A code is accepted exactly when some row is redeemable for it. */
  lemma RedeemAccepts(otps: seq<Otp>, patientId: Guid, code: string, now: Instant)
    ensures Redeem(otps, patientId, code, now).Some? <==>
      exists i :: 0 <= i < |otps| && Redeemable(otps[i], patientId, code, now)
  {
  }

  /** An accepted code flips exactly one row, the first redeemable one, to used; every other
      row and every other column stays as it was. */
  lemma RedeemChangesOneRow(otps: seq<Otp>, patientId: Guid, code: string, now: Instant)
    requires Redeem(otps, patientId, code, now).Some?
    ensures var after := Redeem(otps, patientId, code, now).value;
      var k := FirstRedeemable(otps, patientId, code, now);
      && |after| == |otps|
      && after[k] == otps[k].(isUsed := true) && !otps[k].isUsed
      && (forall i :: 0 <= i < |otps| && i != k ==> after[i] == otps[i])
      && (forall i :: 0 <= i < k ==> !Redeemable(otps[i], patientId, code, now))
  {
  }

  /** A row at exactly its expiry instant is refused. */
  lemma ExpiryIsStrict(o: Otp, now: Instant)
    requires o.expiresAt == now
    ensures Redeem([o], o.patientId, o.code, now) == None
  {
  }

  /** When only one row is redeemable, the same code is accepted once and then refused. */
  lemma RedeemOnce(otps: seq<Otp>, patientId: Guid, code: string, now: Instant, k: nat)
    requires k < |otps| && Redeemable(otps[k], patientId, code, now)
    requires forall i :: 0 <= i < |otps| && i != k ==> !Redeemable(otps[i], patientId, code, now)
    ensures Redeem(otps, patientId, code, now) == Some(otps[k := otps[k].(isUsed := true)])
    ensures Redeem(otps[k := otps[k].(isUsed := true)], patientId, code, now) == None
  {
    var after := otps[k := otps[k].(isUsed := true)];
    assert FirstRedeemable(otps, patientId, code, now) == k;
    assert forall i :: 0 <= i < |after| ==> !Redeemable(after[i], patientId, code, now);
  }

  /** A newly generated row redeems its own code at any instant before it expires. */
  lemma FreshCodeRedeemable(otps: seq<Otp>, o: Otp, created: Instant, now: Instant)
    requires o.isUsed == false && o.expiresAt == created + Lifetime
    requires created <= now < created + Lifetime
    ensures Redeem(otps + [o], o.patientId, o.code, now).Some?
  {
    var r := otps + [o];
    assert Redeemable(r[|otps|], o.patientId, o.code, now);
  }

  /** Appending a row never withdraws a code that was already redeemable, and the same row
      is the one it would use. */
  lemma AppendKeepsEarlierCodes(otps: seq<Otp>, o: Otp, patientId: Guid, code: string, now: Instant)
    requires Redeem(otps, patientId, code, now).Some?
    ensures FirstRedeemable(otps + [o], patientId, code, now) == FirstRedeemable(otps, patientId, code, now)
  {
    var k := FirstRedeemable(otps, patientId, code, now);
    var r := otps + [o];
    assert r[k] == otps[k];
    assert forall i :: 0 <= i < k ==> r[i] == otps[i];
  }

  /** The row `GenerateOtpAsync` creates. */
  function NewOtp(id: Guid, patientId: Guid, code: string, now: Instant): Otp {
    Otp(id, patientId, code, now + Lifetime, false, now)
  }

  /** `GenerateOtpAsync(patientId)`: draw a code, append one unused row for the patient that
      expires ten minutes from now, save, and return the code. `id` is the row's new Guid and
      `sample` the random draw. */
  method GenerateOtp(db: AppDb, patientId: Guid, id: Guid, now: Instant, sample: nat) returns (code: string)
    requires db.Valid() && db.pending == []
    requires !HasKey(db.tables.otps, OtpKey, id)
    modifies db
    ensures db.Valid() && db.pending == []
    ensures code == CodeFor(sample) && |code| == 6
    ensures db.tables == old(db.tables).(otps := old(db.tables.otps) + [NewOtp(id, patientId, code, now)])
  {
    code := DecimalString(GetInt32(CodeFrom, CodeToExclusive, sample) as nat);
    CodeShape(sample);
    var otp := NewOtp(id, patientId, code, now);
    db.Add(OtpRow(otp));
    assert db.pending == [Entry(OtpRow(otp), Added)];
    SaveAddedOtp(db.tables, otp);
    var saved := db.SaveChangesAsync();
  }

  /** `ValidateOtpAsync(patientId, code)`: true, with the first redeemable row marked used and
      saved, when there is one; false, with nothing changed, otherwise. */
  method ValidateOtp(db: AppDb, patientId: Guid, code: string, now: Instant) returns (valid: bool)
    requires db.Valid() && db.pending == []
    modifies db
    ensures db.Valid() && db.pending == []
    ensures valid == Redeem(old(db.tables.otps), patientId, code, now).Some?
    ensures db.tables == if valid then old(db.tables).(otps := Redeem(old(db.tables.otps), patientId, code, now).value)
                         else old(db.tables)
  {
    var otps := db.tables.otps;
    var k := FirstRedeemable(otps, patientId, code, now);
    if k == |otps| {
      return false;
    }
    var used := otps[k].(isUsed := true);
    db.MarkModified(OtpRow(used));
    assert db.pending == [Entry(OtpRow(used), Modified)];
    SaveModifiedOtp(db.tables, k, used);
    var saved := db.SaveChangesAsync();
    return true;
  }
}
