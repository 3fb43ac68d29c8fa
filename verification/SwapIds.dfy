/** The EVM swap identifier: the bytes the orderbook hashes
    (orderbook/src/orders/matching.rs, service.rs) and the bytes the Initia
    executor hashes again from the stored row (initia-executor/src/htlc.rs). */
module SwapIds {
  import opened Common
  import opened Hex
  import opened SwapBytes
  import opened Powers

  datatype Version = V1 | V2 | V3

  // A BigDecimal: unscaled / 10^scale.
  datatype Amount = Amount(unscaled: int, scale: nat)

  // `BigUint::from_str(&amount.to_string())`: plain digits only.
  predicate Plain(a: Amount) { a.scale == 0 && a.unscaled >= 0 }

  datatype Params = Params(
    chainId: nat, initiator: string, redeemer: string, timelock: nat, secretHash: string, amount: Amount,
    version: Version, htlc: string)

  // ------------------------------------------------------ the orderbook's bytes

  function Head(p: Params): (r: Result<seq<int>>)
    ensures r.Ok? ==> |r.value| == 96
  {
    var secret, initiator := RightPadded(p.secretHash, 32), HashOf(p.initiator);
    if p.chainId >= TWO_64 || secret.Err? || initiator.Err? then Err
    else Ok(Word(p.chainId) + secret.value + initiator.value)
  }

  function Middle(p: Params): (r: Result<seq<int>>)
    ensures r.Ok? ==> |r.value| == 96
  {
    var redeemer := HashOf(p.redeemer);
    if redeemer.Err? || !Plain(p.amount) || !FitsWord(p.timelock) || !FitsWord(p.amount.unscaled) then Err
    else Ok(redeemer.value + Word(p.timelock) + Word(p.amount.unscaled))
  }

  /** What the orderbook feeds to SHA-256, or no identifier. */
  function Preimage(p: Params): Result<seq<int>> {
    var head, middle, htlc := Head(p), Middle(p), HashOf(p.htlc);
    if head.Err? then Err
    else if p.version.V1? then head
    else if middle.Err? then Err
    else if p.version.V2? then Ok(head.value + middle.value)
    else if htlc.Err? then Err
    else Ok(head.value + middle.value + htlc.value)
  }

  // `generate_evm_swap_id`, up to the hash.
  method GenerateEvmSwapPreimage(p: Params) returns (r: Result<seq<int>>)
    ensures r == Preimage(p)
  {
    if p.chainId >= TWO_64 { return Err; }
    Fits64(p.chainId);
    WordOf(p.chainId);
    var chainIdPadded := LeftPadBytes(MinBytes(p.chainId), 32);
    var secretHashPadded := DecodeAndPadHex(p.secretHash, 32);
    if secretHashPadded.Err? { return Err; }
    var initiatorBytes := HexToHash(p.initiator);
    if initiatorBytes.Err? { return Err; }
    var data: seq<int> := [];
    data := data + chainIdPadded;
    assert data == Word(p.chainId);
    data := data + secretHashPadded.value;
    data := data + initiatorBytes.value;
    assert Head(p) == Ok(data);
    if p.version.V2? || p.version.V3? {
      var middle := GenerateMiddle(p);
      if middle.Err? { return Err; }
      data := data + middle.value;
    }
    if p.version.V3? {
      var htlcAddressBytes := HexToHash(p.htlc);
      if htlcAddressBytes.Err? { return Err; }
      data := data + htlcAddressBytes.value;
    }
    r := Ok(data);
  }

  /** When exactly there is an identifier: a 64-bit chain id, a secret hash of at most
      32 bytes, hex addresses, and from version 2 on a whole non-negative amount, the
      amount and the timelock below 2^256. */
  lemma IdentifierExists(p: Params)
    ensures Preimage(p).Ok? <==>
      && p.chainId < 0x1_0000_0000_0000_0000
      && Decode(TrimAll0x(p.secretHash)).Ok? && |Decode(TrimAll0x(p.secretHash)).value| <= 32
      && Decode(Strip0x(p.initiator)).Ok?
      && (p.version != V1 ==>
            && Decode(Strip0x(p.redeemer)).Ok? && p.amount.scale == 0 && 0 <= p.amount.unscaled < Pow2(8 * 32)
            && p.timelock < Pow2(8 * 32))
      && (p.version == V3 ==> Decode(Strip0x(p.htlc)).Ok?)
  {
    MiddleExists(p);
  }

  lemma MiddleExists(p: Params)
    ensures Middle(p).Ok? <==>
      && Decode(Strip0x(p.redeemer)).Ok? && p.amount.scale == 0 && 0 <= p.amount.unscaled < Pow2(8 * 32)
      && p.timelock < Pow2(8 * 32)
  {
    FitsBelow(p.timelock, 32);
    if p.amount.unscaled >= 0 { FitsBelow(p.amount.unscaled, 32); }
  }

  lemma FitsBelow(n: nat, m: nat)
    requires m > 0
    ensures |MinBytes(n)| <= m <==> n < Pow2(8 * m)
  {
    PaddedIsWord(n, m);
  }

  // The fields versions 2 and 3 add.
  method GenerateMiddle(p: Params) returns (r: Result<seq<int>>)
    ensures r == Middle(p)
  {
    var redeemerBytes := HexToHash(p.redeemer);
    if redeemerBytes.Err? { return Err; }
    var timelockBytes := AbiEncodeUint256(p.timelock);
    if timelockBytes.Err? { return Err; }
    if !Plain(p.amount) { return Err; }
    var amountBytes := AbiEncodeUint256(p.amount.unscaled);
    if amountBytes.Err? { return Err; }
    r := Ok(redeemerBytes.value + timelockBytes.value + amountBytes.value);
  }

  // --------------------------------------------------------------- injectivity

  // The bytes of a 20-byte address, with or without "0x".
  function Address(s: string): (r: Result<seq<int>>)
    ensures r.Ok? ==> |r.value| == 20
  {
    var bytes := Decode(Strip0x(s));
    if bytes.Ok? && |bytes.value| == 20 then bytes else Err
  }

  lemma AddressWord(s: string)
    requires Address(s).Ok?
    ensures HashOf(s) == Ok(Zeros(12) + Address(s).value)
  {
  }

  lemma AddressFromWord(s: string, t: string)
    requires Address(s).Ok? && Address(t).Ok? && HashOf(s) == HashOf(t)
    ensures Address(s) == Address(t)
  {
    AddressWord(s);
    AddressWord(t);
    Tails(Zeros(12), Address(s).value, Address(t).value);
  }

  lemma Tails(a: seq<int>, x: seq<int>, y: seq<int>)
    requires a + x == a + y
    ensures x == y
  {
    assert (a + x)[|a|..] == x && (a + y)[|a|..] == y;
  }

  lemma Split(a: seq<int>, b: seq<int>, x: seq<int>, y: seq<int>)
    requires |a| == |x| && a + b == x + y
    ensures a == x && b == y
  {
    assert (a + b)[..|a|] == a && (x + y)[..|a|] == x;
    assert (a + b)[|a|..] == b && (x + y)[|a|..] == y;
  }

  lemma HeadInjective(p: Params, q: Params)
    requires Head(p).Ok? && Head(p) == Head(q)
    ensures p.chainId == q.chainId && RightPadded(p.secretHash, 32) == RightPadded(q.secretHash, 32)
    ensures HashOf(p.initiator) == HashOf(q.initiator)
  {
    var s, t := RightPadded(p.secretHash, 32).value, RightPadded(q.secretHash, 32).value;
    Split(Word(p.chainId) + s, HashOf(p.initiator).value, Word(q.chainId) + t, HashOf(q.initiator).value);
    Split(Word(p.chainId), s, Word(q.chainId), t);
    Fits64(p.chainId);
    Fits64(q.chainId);
    WordInjective(p.chainId, q.chainId);
  }

  lemma MiddleInjective(p: Params, q: Params)
    requires Middle(p).Ok? && Middle(p) == Middle(q)
    ensures HashOf(p.redeemer) == HashOf(q.redeemer) && p.timelock == q.timelock && p.amount == q.amount
  {
    Split(HashOf(p.redeemer).value + Word(p.timelock), Word(p.amount.unscaled),
          HashOf(q.redeemer).value + Word(q.timelock), Word(q.amount.unscaled));
    Split(HashOf(p.redeemer).value, Word(p.timelock), HashOf(q.redeemer).value, Word(q.timelock));
    WordInjective(p.timelock, q.timelock);
    WordInjective(p.amount.unscaled, q.amount.unscaled);
  }

  // The length tells the version.
  lemma PreimageShape(p: Params)
    requires Preimage(p).Ok?
    ensures |Preimage(p).value| == match p.version case V1 => 96 case V2 => 192 case V3 => 224
  {
  }

  // The addresses a version hashes have 20 bytes.
  predicate Addressed(p: Params) {
    && Address(p.initiator).Ok? && (!p.version.V1? ==> Address(p.redeemer).Ok?)
    && (p.version.V3? ==> Address(p.htlc).Ok?)
  }

  // One byte string is the other followed by zeros.
  predicate SameUpToZeros(a: seq<int>, b: seq<int>) {
    || (a <= b && forall i :: |a| <= i < |b| ==> b[i] == 0)
    || (b <= a && forall i :: |b| <= i < |a| ==> a[i] == 0)
  }

  lemma PaddedEqual(a: seq<int>, b: seq<int>, n: nat)
    requires |a| <= n && |b| <= n
    ensures a + Zeros(n - |a|) == b + Zeros(n - |b|) <==> SameUpToZeros(a, b)
  {
    var x, y := a + Zeros(n - |a|), b + Zeros(n - |b|);
    if x == y {
      assert forall i :: |a| <= i < |b| ==> b[i] == y[i] == x[i] == 0;
      assert forall i :: |b| <= i < |a| ==> a[i] == x[i] == y[i] == 0;
      assert |a| <= |b| ==> a == x[..|a|] == y[..|a|] == b[..|a|];
      assert |b| <= |a| ==> b == y[..|b|] == x[..|b|] == a[..|b|];
    }
    if SameUpToZeros(a, b) {
      forall i | 0 <= i < n ensures x[i] == y[i] {}
    }
  }

  // Everything the version hashes but the secret hash.
  predicate SameFields(p: Params, q: Params) {
    && p.version == q.version && p.chainId == q.chainId && Address(p.initiator) == Address(q.initiator)
    && (!p.version.V1? ==>
          Address(p.redeemer) == Address(q.redeemer) && p.timelock == q.timelock && p.amount == q.amount)
    && (p.version.V3? ==> Address(p.htlc) == Address(q.htlc))
  }

  /** Two preimages are equal exactly when the other fields are and the decoded
      secret hashes differ at most by zero bytes at the end. */
  lemma PreimagesEqualIff(p: Params, q: Params)
    requires Preimage(p).Ok? && Preimage(q).Ok? && Addressed(p) && Addressed(q)
    ensures Decode(TrimAll0x(p.secretHash)).Ok? && Decode(TrimAll0x(q.secretHash)).Ok?
    ensures Preimage(p) == Preimage(q) <==>
      SameFields(p, q)
      && SameUpToZeros(Decode(TrimAll0x(p.secretHash)).value, Decode(TrimAll0x(q.secretHash)).value)
  {
    HeadSecret(p);
    HeadSecret(q);
    PaddedEqual(Decode(TrimAll0x(p.secretHash)).value, Decode(TrimAll0x(q.secretHash)).value, 32);
    if Preimage(p) == Preimage(q) {
      EqualPreimages(p, q);
    } else if SameFields(p, q) && RightPadded(p.secretHash, 32) == RightPadded(q.secretHash, 32) {
      EqualFields(p, q);
      assert false;
    }
  }

  lemma HeadSecret(p: Params)
    requires Preimage(p).Ok?
    ensures Decode(TrimAll0x(p.secretHash)).Ok?
    ensures var bytes := Decode(TrimAll0x(p.secretHash)).value;
      |bytes| <= 32 && RightPadded(p.secretHash, 32) == Ok(bytes + Zeros(32 - |bytes|))
  {
  }

  lemma EqualFields(p: Params, q: Params)
    requires Preimage(p).Ok? && Preimage(q).Ok? && Addressed(p) && Addressed(q)
    requires SameFields(p, q) && RightPadded(p.secretHash, 32) == RightPadded(q.secretHash, 32)
    ensures Preimage(p) == Preimage(q)
  {
    AddressWord(p.initiator);
    AddressWord(q.initiator);
    if !p.version.V1? {
      AddressWord(p.redeemer);
      AddressWord(q.redeemer);
    }
    if p.version.V3? {
      AddressWord(p.htlc);
      AddressWord(q.htlc);
    }
  }

  lemma EqualPreimages(p: Params, q: Params)
    requires Preimage(p).Ok? && Preimage(p) == Preimage(q) && Addressed(p) && Addressed(q)
    ensures SameFields(p, q) && RightPadded(p.secretHash, 32) == RightPadded(q.secretHash, 32)
  {
    PreimageShape(p);
    PreimageShape(q);
    PartsEqual(p, q);
    HeadInjective(p, q);
    AddressFromWord(p.initiator, q.initiator);
    if !p.version.V1? {
      MiddleInjective(p, q);
      AddressFromWord(p.redeemer, q.redeemer);
    }
    if p.version.V3? { AddressFromWord(p.htlc, q.htlc); }
  }

  /** For secret hashes `create_order` lets through, equal preimages come from equal
      swaps, secret hash included. */
  lemma PreimageInjective(p: Params, q: Params)
    requires Preimage(p).Ok? && Preimage(p) == Preimage(q) && Addressed(p) && Addressed(q)
    requires ValidSecretHash(p.secretHash) && ValidSecretHash(q.secretHash)
    ensures SameFields(p, q) && Decode(p.secretHash) == Decode(q.secretHash)
  {
    EqualPreimages(p, q);
    SecretHashAgrees(p.secretHash);
    SecretHashAgrees(q.secretHash);
    assert p.secretHash[..2] != "0x" && q.secretHash[..2] != "0x";
    assert Strip0x(Strip0x(p.secretHash)) == p.secretHash && Strip0x(Strip0x(q.secretHash)) == q.secretHash;
  }

  /** The generator alone takes "ab" and "ab00" for the same secret hash. */
  lemma ShortHashesCollide(timelock: nat)
    requires timelock < TWO_64
    ensures Decode("ab") == Ok([171]) && Decode("ab00") == Ok([171, 0])
    ensures var p := Zeroed(timelock);
      && Preimage(p.(secretHash := "ab")).Ok?
      && Preimage(p.(secretHash := "ab")) == Preimage(p.(secretHash := "ab00"))
  {
    ZeroedIsAccepted(timelock);
    ShortSecrets();
    SamePreimage(Zeroed(timelock), "ab", "ab00");
  }

  lemma ShortSecrets()
    ensures TrimAll0x("ab") == "ab" && TrimAll0x("ab00") == "ab00"
    ensures Decode("ab") == Ok([171]) && Decode("ab00") == Ok([171, 0])
  {
    assert "ab"[..2] == "ab" && "ab00"[..2] == "ab";
    DecodesPair("ab", "");
    DecodesPair("00", "");
    DecodesPair("ab00", "00");
    assert 16 * DigitValue('a') + DigitValue('b') == 171 && [171] + [] == [171];
    assert [0] + [] == [0] && [171] + [0] == [171, 0];
  }

  lemma DecodesPair(s: string, rest: string)
    requires |s| >= 2 && s[2..] == rest && IsHexDigit(s[0]) && IsHexDigit(s[1]) && Decode(rest).Ok?
    ensures Decode(s) == Ok([16 * DigitValue(s[0]) + DigitValue(s[1])] + Decode(rest).value)
  {
  }

  lemma SamePreimage(p: Params, s: string, t: string)
    requires Preimage(p).Ok? && Addressed(p) && TrimAll0x(s) == s && TrimAll0x(t) == t
    requires Decode(s) == Ok([171]) && Decode(t) == Ok([171, 0])
    ensures Preimage(p.(secretHash := s)).Ok? && Preimage(p.(secretHash := s)) == Preimage(p.(secretHash := t))
  {
    PaddedEqual([171], [171, 0], 32);
    EqualFields(p.(secretHash := s), p.(secretHash := t));
  }

  lemma PartsEqual(p: Params, q: Params)
    requires Preimage(p).Ok? && Preimage(p) == Preimage(q) && p.version == q.version
    ensures Head(p).Ok? && Head(p) == Head(q)
    ensures !p.version.V1? ==> Middle(p).Ok? && Middle(p) == Middle(q)
    ensures p.version.V3? ==> HashOf(p.htlc) == HashOf(q.htlc)
  {
    if p.version.V3? {
      Split(Head(p).value + Middle(p).value, HashOf(p.htlc).value, Head(q).value + Middle(q).value,
        HashOf(q.htlc).value);
    }
    if !p.version.V1? { Split(Head(p).value, Middle(p).value, Head(q).value, Middle(q).value); }
  }

  // ----------------------------------------------------------- the stored rows

  // `normalize_address`
  function NormalizeAddress(chain: string, address: string): string {
    if Includes(chain, "bitcoin") || Includes(chain, "solana") then address else Lower(address)
  }

  // Rust's `as` between u64 and i32.
  function AsI32(n: nat): (r: int)
    ensures -TWO_31 <= r < TWO_31
  {
    var low := n % TWO_32;
    if low < TWO_31 then low else low - TWO_32
  }

  function AsU64(n: int): (r: nat)
    requires -TWO_31 <= n < TWO_31
    ensures r < TWO_64
  {
    if n >= 0 then n else n + TWO_64
  }

  // `(min_source_timelock.saturating_mul(12)) as i32`
  function SourceTimelock(minSourceTimelock: nat): int {
    AsI32(if minSourceTimelock * 12 < TWO_64 then minSourceTimelock * 12 else TWO_64 - 1)
  }

  predicate ValidSecretHash(s: string) {
    |s| == 64 && !("0x" <= s) && Decode(s).Ok?
  }

  datatype Row = Row(
    initiator: string, redeemer: string, timelock: int, secretHash: string, amount: Amount, htlc: string)

  // The row `create_order` stores for a leg with these parameters.
  function Stored(chain: string, p: Params): Row {
    Row(NormalizeAddress(chain, p.initiator), NormalizeAddress(chain, p.redeemer), AsI32(p.timelock),
        p.secretHash, p.amount, p.htlc)
  }

  // -------------------------------------------------------- the executor's bytes

  function Truncated(a: Amount): nat
    requires a.unscaled >= 0
  {
    DivShrinks(a.unscaled, Pow10(a.scale));
    a.unscaled / Pow10(a.scale)
  }

  // `to_u128`: the fraction is dropped, the rest must fit.
  function ToU128(a: Amount): Option<nat> {
    if a.unscaled < 0 || Truncated(a) >= TWO_128 then None else Some(Truncated(a))
  }

  // The ABI word of an address: twelve zeros before it.
  function AbiAddress(bytes: seq<int>): seq<int> { Zeros(12) + bytes }

  // `parse_secret_hash`: its decoder takes off a second "0x" too.
  function SecretHash(s: string): (r: Result<seq<int>>)
    ensures r.Ok? ==> |r.value| == 32
  {
    var bytes := Decode(Strip0x(Strip0x(s)));
    if bytes.Ok? && |bytes.value| == 32 then bytes else Err
  }

  /** What the executor feeds to SHA-256 for a stored row. */
  function OrderPreimage(chainId: nat, row: Row): Result<seq<int>>
    requires -TWO_31 <= row.timelock < TWO_31
  {
    var initiator, redeemer, htlc := Address(row.initiator), Address(row.redeemer), Address(row.htlc);
    var amount, secret := ToU128(row.amount), SecretHash(row.secretHash);
    if initiator.Err? || redeemer.Err? || amount.None? || secret.Err? || htlc.Err? then Err
    else Ok(Word(chainId) + secret.value + AbiAddress(initiator.value) + AbiAddress(redeemer.value)
            + Word(AsU64(row.timelock)) + Word(amount.value) + AbiAddress(htlc.value))
  }

  // ------------------------------------------------------------------ agreement

  lemma SecretHashAgrees(s: string)
    requires ValidSecretHash(s)
    ensures SecretHash(s).Ok? && RightPadded(s, 32) == SecretHash(s)
  {
    assert s[..2] != "0x";
    assert Strip0x(s) == s && TrimAll0x(s) == s;
    var bytes := Decode(s).value;
    assert bytes + Zeros(0) == bytes;
  }

  /** Stored addresses are compared up to case, except on Bitcoin and Solana. */
  lemma StoredAddresses(chain: string, p: Params, q: Params)
    ensures var a, b := Stored(chain, p), Stored(chain, q);
      var exactly := Includes(chain, "bitcoin") || Includes(chain, "solana");
      && (a.initiator == b.initiator <==>
            if exactly then p.initiator == q.initiator else Lower(p.initiator) == Lower(q.initiator))
      && (a.redeemer == b.redeemer <==>
            if exactly then p.redeemer == q.redeemer else Lower(p.redeemer) == Lower(q.redeemer))
  {
  }

  lemma NormalizedAddress(chain: string, a: string)
    requires HashOf(a).Ok?
    ensures Address(NormalizeAddress(chain, a)) == Address(a)
  {
    DecodeStrippedLower(a);
  }

  lemma AmountAgrees(a: Amount)
    requires Plain(a)
    ensures ToU128(a) == if a.unscaled < TWO_128 then Some(a.unscaled as nat) else None
  {
    assert Pow10(0) == 1;
  }

  lemma V3Parts(p: Params)
    requires p.version.V3? && Preimage(p).Ok?
    ensures Head(p).Ok? && Middle(p).Ok? && Plain(p.amount) && FitsWord(p.amount.unscaled)
    ensures HashOf(p.initiator).Ok? && HashOf(p.redeemer).Ok? && HashOf(p.htlc).Ok?
  {
  }

  /** The executor reproduces a preimage the orderbook has hashed exactly when
      the three addresses have 20 bytes and the amount is below 2^128. */
  lemma ExecutorAccepts(chain: string, p: Params)
    requires ValidSecretHash(p.secretHash) && p.version.V3? && Preimage(p).Ok?
    ensures OrderPreimage(p.chainId, Stored(chain, p)).Ok? <==>
      Address(p.initiator).Ok? && Address(p.redeemer).Ok? && Address(p.htlc).Ok? && p.amount.unscaled < TWO_128
  {
    V3Parts(p);
    SecretHashAgrees(p.secretHash);
    NormalizedAddress(chain, p.initiator);
    NormalizedAddress(chain, p.redeemer);
    AmountAgrees(p.amount);
  }

  // A u64 timelock survives storage as i32 and the way back.
  predicate Survives(timelock: nat) { timelock < TWO_31 || TWO_64 - TWO_31 <= timelock }

  lemma CastRoundTrip(timelock: nat)
    requires timelock < TWO_64
    ensures AsU64(AsI32(timelock)) == timelock <==> Survives(timelock)
  {
  }

  /** The source timelock, already an i32 when hashed, always survives. */
  lemma SourceTimelockSurvives(minSourceTimelock: nat)
    ensures AsI32(AsU64(SourceTimelock(minSourceTimelock))) == SourceTimelock(minSourceTimelock)
    ensures Survives(AsU64(SourceTimelock(minSourceTimelock)))
    ensures minSourceTimelock <= 0x7FFF_FFFF / 12 ==> SourceTimelock(minSourceTimelock) == 12 * minSourceTimelock
    ensures minSourceTimelock <= 0xFFFF_FFFF_FFFF_FFFF / 12 ==>
      (12 * minSourceTimelock - SourceTimelock(minSourceTimelock)) % 0x1_0000_0000 == 0
    ensures minSourceTimelock > 0xFFFF_FFFF_FFFF_FFFF / 12 ==> SourceTimelock(minSourceTimelock) == -1
  {
  }

  // The seven words of version 3, for a given timelock.
  function Layout(p: Params, timelock: nat): seq<int>
    requires HashOf(p.initiator).Ok? && HashOf(p.redeemer).Ok? && HashOf(p.htlc).Ok?
    requires RightPadded(p.secretHash, 32).Ok? && Plain(p.amount)
  {
    Word(p.chainId) + RightPadded(p.secretHash, 32).value + HashOf(p.initiator).value + HashOf(p.redeemer).value
    + Word(timelock) + Word(p.amount.unscaled) + HashOf(p.htlc).value
  }

  lemma OrderbookLayout(p: Params)
    requires p.version.V3? && Preimage(p).Ok?
    ensures HashOf(p.initiator).Ok? && HashOf(p.redeemer).Ok? && HashOf(p.htlc).Ok?
    ensures RightPadded(p.secretHash, 32).Ok? && Plain(p.amount)
    ensures Preimage(p) == Ok(Layout(p, p.timelock))
  {
    V3Parts(p);
    Regroup(Head(p).value, HashOf(p.redeemer).value, Word(p.timelock), Word(p.amount.unscaled), HashOf(p.htlc).value);
  }

  lemma Regroup(a: seq<int>, b: seq<int>, c: seq<int>, d: seq<int>, e: seq<int>)
    ensures a + (b + c + d) + e == a + b + c + d + e
  {
  }

  lemma ExecutorLayout(chain: string, p: Params)
    requires ValidSecretHash(p.secretHash) && p.version.V3?
    requires Preimage(p).Ok? && OrderPreimage(p.chainId, Stored(chain, p)).Ok?
    requires HashOf(p.initiator).Ok? && HashOf(p.redeemer).Ok? && HashOf(p.htlc).Ok?
    requires RightPadded(p.secretHash, 32).Ok? && Plain(p.amount)
    ensures OrderPreimage(p.chainId, Stored(chain, p)) == Ok(Layout(p, AsU64(AsI32(p.timelock))))
  {
    ExecutorAccepts(chain, p);
    SecretHashAgrees(p.secretHash);
    NormalizedAddress(chain, p.initiator);
    NormalizedAddress(chain, p.redeemer);
    AddressWord(p.initiator);
    AddressWord(p.redeemer);
    AddressWord(p.htlc);
    AmountAgrees(p.amount);
  }

  lemma LayoutInjective(p: Params, t: nat, u: nat)
    requires HashOf(p.initiator).Ok? && HashOf(p.redeemer).Ok? && HashOf(p.htlc).Ok?
    requires RightPadded(p.secretHash, 32).Ok? && Plain(p.amount)
    requires FitsWord(t) && FitsWord(u) && Layout(p, t) == Layout(p, u)
    ensures t == u
  {
    var secret := RightPadded(p.secretHash, 32).value;
    var head := Word(p.chainId) + secret + HashOf(p.initiator).value + HashOf(p.redeemer).value;
    var amount, htlc := Word(p.amount.unscaled), HashOf(p.htlc).value;
    Split(head + Word(t) + amount, htlc, head + Word(u) + amount, htlc);
    Split(head + Word(t), amount, head + Word(u), amount);
    Split(head, Word(t), head, Word(u));
    WordInjective(t, u);
  }

  /** For a version 3 swap both sides hash the same bytes exactly when the
      timelock survives its stored form. */
  lemma PreimagesAgree(chain: string, p: Params)
    requires ValidSecretHash(p.secretHash) && p.version.V3? && p.timelock < TWO_64
    requires Preimage(p).Ok? && OrderPreimage(p.chainId, Stored(chain, p)).Ok?
    ensures Preimage(p) == OrderPreimage(p.chainId, Stored(chain, p)) <==> Survives(p.timelock)
  {
    OrderbookLayout(p);
    ExecutorLayout(chain, p);
    CastRoundTrip(p.timelock);
    Fits64(p.timelock);
    Fits64(AsU64(AsI32(p.timelock)));
    if Layout(p, p.timelock) == Layout(p, AsU64(AsI32(p.timelock))) {
      LayoutInjective(p, p.timelock, AsU64(AsI32(p.timelock)));
    }
  }

  function ZeroText(n: nat): string { seq(n, _ => '0') }

  lemma {:induction false} ZeroTextDecodes(n: nat)
    ensures Decode(ZeroText(2 * n)).Ok? && |Decode(ZeroText(2 * n)).value| == n
  {
    if n > 0 {
      ZeroTextDecodes(n - 1);
      assert ZeroText(2 * n)[2..] == ZeroText(2 * (n - 1));
    }
  }

  // Chain 1, zero addresses and secret hash, amount 1.
  function Zeroed(timelock: nat): Params {
    var address := "0x" + ZeroText(40);
    Params(1, address, address, timelock, ZeroText(64), Amount(1, 0), V3, address)
  }

  lemma ZeroedIsAccepted(timelock: nat)
    requires timelock < TWO_64
    ensures ValidSecretHash(Zeroed(timelock).secretHash) && Preimage(Zeroed(timelock)).Ok?
    ensures Address("0x" + ZeroText(40)).Ok?
  {
    ZeroTextDecodes(20);
    ZeroTextDecodes(32);
    assert Strip0x("0x" + ZeroText(40)) == ZeroText(40);
    assert ZeroText(64)[1] == '0';
    SecretHashAgrees(ZeroText(64));
    AddressWord("0x" + ZeroText(40));
    Fits64(timelock);
    Fits64(1);
  }

  /** A destination timelock of 2^31: both sides have a preimage, and they differ. */
  lemma LongTimelockDisagrees()
    ensures Preimage(Zeroed(TWO_31)).Ok? && OrderPreimage(1, Stored("evm", Zeroed(TWO_31))).Ok?
    ensures Preimage(Zeroed(TWO_31)) != OrderPreimage(1, Stored("evm", Zeroed(TWO_31)))
  {
    ZeroedIsAccepted(TWO_31);
    ExecutorAccepts("evm", Zeroed(TWO_31));
    PreimagesAgree("evm", Zeroed(TWO_31));
  }

  /** Versions 1 and 2 hash fewer bytes than the executor does. */
  lemma OlderVersionsDiffer(chain: string, p: Params, row: Row)
    requires -TWO_31 <= row.timelock < TWO_31 && !p.version.V3?
    requires Preimage(p).Ok? && OrderPreimage(p.chainId, row).Ok?
    ensures Preimage(p) != OrderPreimage(p.chainId, row)
  {
    PreimageShape(p);
    assert |OrderPreimage(p.chainId, row).value| == 224;
  }
}
