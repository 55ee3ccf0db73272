/**
 * The card engine: verification, bulk generation and redemption over the cards table,
 * and the CardSystem object that owns the table, the secret slot and the loaded key.
 */
module CardEngine {
  import opened Wrappers
  import opened Signer
  import opened CardFormat
  import opened CardStore

  // ---- Verification ----

  /** The distinct error messages verify_card reports. */
  datatype VerifyError =
    | MissingSeparator  // the token has no '#'
    | WrongLength       // the parts around the first '#' are not 16 and 10 characters
    | BadSignature      // the signature part is not the signature of the raw part
    | UnknownCard       // no row holds the token
    | StorageError      // the lookup failed in the database layer

  /** The result dict of verify_card. */
  datatype Verdict = Verdict(valid: bool, isUsed: Option<bool>, usageCount: nat, error: Option<VerifyError>)

  /**
   * verify_card either returns its dict or, when the constant-time comparison is
   * handed a str with non-ASCII characters, raises TypeError.
   */
  datatype VerifyOutcome = Reported(verdict: Verdict) | RaisesTypeError

  /** The dict as initialised, with its error filled in. */
  function Rejected(e: VerifyError): Verdict {
    Verdict(false, None, 0, Some(e))
  }

  /** The signature part of a well-shaped token is the signature of its raw part. */
  predicate SignedBy(sign: SignFn, key: Key, card: string) {
    WellShaped(card) && card[RawLength + 1..] == sign(key, card[..RawLength])
  }

  /**
   * verify_card: separator, then lengths, then signature, then lookup, the first
   * failing check deciding the outcome. The outcome depends on the store (and on a
   * storage fault) only once the token is well-shaped and correctly signed.
   */
  function Verify(sign: SignFn, key: Key, rows: seq<Card>, card: string, storageFault: bool): (r: VerifyOutcome)
    ensures Separator !in card ==> r == Reported(Rejected(MissingSeparator))
    ensures Separator in card && !WellShaped(card) ==> r == Reported(Rejected(WrongLength))
    ensures WellShaped(card) ==>
      (r == RaisesTypeError <==>
        !IsAscii(card[RawLength + 1..]) || !IsAscii(sign(key, card[..RawLength])))
    ensures (WellShaped(card) && IsAscii(card[RawLength + 1..]) && IsAscii(sign(key, card[..RawLength]))
             && !SignedBy(sign, key, card)) ==> r == Reported(Rejected(BadSignature))
    ensures r == Reported(Rejected(StorageError)) <==>
      SignedBy(sign, key, card) && IsAscii(card[RawLength + 1..]) && storageFault
    ensures r == Reported(Rejected(UnknownCard)) <==>
      SignedBy(sign, key, card) && IsAscii(card[RawLength + 1..]) && !storageFault && card !in Ids(rows)
    ensures (r.Reported? && r.verdict.valid) <==>
      SignedBy(sign, key, card) && IsAscii(card[RawLength + 1..]) && !storageFault && card in Ids(rows)
    ensures r.Reported? && r.verdict.valid ==>
      var i := Find(rows, card).value;
      r.verdict == Verdict(true, Some(rows[i].isUsed), rows[i].usageCount, None)
    ensures r.Reported? && !r.verdict.valid ==>
      r.verdict.isUsed == None && r.verdict.usageCount == 0 && r.verdict.error.Some?
  {
    if Separator !in card then Reported(Rejected(MissingSeparator))
    else
      SplitLengthsIffWellShaped(card);
      var (raw, sig) := SplitAtFirst(card, Separator).value;
      if |raw| != RawLength || |sig| != SignatureLength then Reported(Rejected(WrongLength))
      else
        var expected := sign(key, raw);
        if !IsAscii(sig) || !IsAscii(expected) then RaisesTypeError
        else if sig != expected then Reported(Rejected(BadSignature))
        else if storageFault then Reported(Rejected(StorageError))
        else
          match Find(rows, card)
          case None => Reported(Rejected(UnknownCard))
          case Some(i) => Reported(Verdict(true, Some(rows[i].isUsed), rows[i].usageCount, None))
  }

  /**
   * With a signer that yields hex digests, verify accepts exactly the correctly
   * signed tokens that are in the store, when the store answers.
   */
  lemma VerifyAcceptsExactlyStoredSignedCards(sign: SignFn, key: Key, rows: seq<Card>, card: string, storageFault: bool)
    requires TruncatedHexDigest(sign)
    ensures var r := Verify(sign, key, rows, card, storageFault);
      (r.Reported? && r.verdict.valid) <==> SignedBy(sign, key, card) && !storageFault && card in Ids(rows)
  {
    if SignedBy(sign, key, card) {
      SignatureIsAscii(sign(key, card[..RawLength]));
    }
  }

  /**
   * A raw part holding the separator is cut short by the split, so its token fails
   * the length check whatever its signature, its store and the storage state.
   */
  lemma SeparatorInRawPartRejected(sign: SignFn, key: Key, rows: seq<Card>, raw: string, signature: string, storageFault: bool)
    requires |raw| == RawLength && Separator in raw
    ensures Verify(sign, key, rows, CardId(raw, signature), storageFault) == Reported(Rejected(WrongLength))
  {
    SplitInsideRawPart(raw, signature);
    SplitLengthsIffWellShaped(CardId(raw, signature));
  }

  /**
   * A token whose signature part was altered into any other ASCII string of the same
   * length fails with the signature error, never reaching the store.
   */
  lemma TamperedSignatureRejected(sign: SignFn, key: Key, rows: seq<Card>, raw: string, signature: string, storageFault: bool)
    requires TruncatedHexDigest(sign)
    requires |raw| == RawLength && Separator !in raw
    requires |signature| == SignatureLength && IsAscii(signature) && signature != sign(key, raw)
    ensures Verify(sign, key, rows, CardId(raw, signature), storageFault) == Reported(Rejected(BadSignature))
  {
    var card := CardId(raw, signature);
    assert card[..RawLength] == raw && card[RawLength + 1..] == signature;
    SignatureIsAscii(sign(key, raw));
  }

  /**
   * A correctly signed row whose raw part has no separator is reported valid, with
   * the stored used flag and counter, as long as ids are unique.
   */
  lemma IssuedCardVerifies(sign: SignFn, key: Key, rows: seq<Card>, i: nat)
    requires TruncatedHexDigest(sign) && UniqueIds(rows)
    requires i < |rows| && |rows[i].rawPart| == RawLength && Separator !in rows[i].rawPart
    requires rows[i].cardId == CardId(rows[i].rawPart, sign(key, rows[i].rawPart))
    ensures Verify(sign, key, rows, rows[i].cardId, false) ==
      Reported(Verdict(true, Some(rows[i].isUsed), rows[i].usageCount, None))
  {
    var raw := rows[i].rawPart;
    var card := rows[i].cardId;
    assert card[..RawLength] == raw && card[RawLength + 1..] == sign(key, raw);
    assert card in Ids(rows);
    SignatureIsAscii(sign(key, raw));
    FindUnique(rows, card, i);
  }

  /**
   * Redeeming a card verify accepts makes verify report it used, with its counter
   * one higher: a first redemption gives 1, a second 2.
   */
  lemma RedeemThenVerify(sign: SignFn, key: Key, rows: seq<Card>, card: string, now: nat)
    requires UniqueIds(rows)
    requires Verify(sign, key, rows, card, false).Reported? && Verify(sign, key, rows, card, false).verdict.valid
    ensures var before := Verify(sign, key, rows, card, false).verdict;
      Verify(sign, key, Redeem(rows, card, now), card, false) ==
        Reported(Verdict(true, Some(true), before.usageCount + 1, None))
  {
    var i := Find(rows, card).value;
    var after := Redeem(rows, card, now);
    assert after[i].cardId == card;
    assert UniqueIds(after) by {
      assert forall j :: 0 <= j < |rows| ==> after[j].cardId == rows[j].cardId;
    }
    FindUnique(after, card, i);
  }

  // ---- Generation ----

  /** Attempts generate_card makes before giving up. */
  const MaxAttempts: nat := 5

  /** The errors generate_card raises. */
  datatype GenerateError =
    | UniqueCardUnavailable  // five batches in a row collided: RuntimeError
    | EmptyBatch             // batch_size < 1: the empty batch is inserted, then cards[0] raises IndexError

  /** Iterations of range(batch_size). */
  function BatchLength(batchSize: int): nat {
    if batchSize < 0 then 0 else batchSize
  }

  /**
   * The random source: one batch of raw parts per attempt, each batch as long as
   * the requested size and each raw part drawn from the alphabet.
   */
  predicate DrawsFit(draws: seq<seq<string>>, batchSize: int) {
    && |draws| == MaxAttempts
    && forall a :: 0 <= a < |draws| ==>
         |draws[a]| == BatchLength(batchSize) && forall j :: 0 <= j < |draws[a]| ==> IsRawPart(draws[a][j])
  }

  /** The row a raw part becomes: signed, stamped, unused, counter at zero. */
  function NewCard(sign: SignFn, key: Key, raw: string, now: nat): Card {
    var signature := sign(key, raw);
    Card(CardId(raw, signature), raw, signature, now, false, None, 0)
  }

  /** The batch built from one attempt's raw parts, in order. */
  function Mint(sign: SignFn, key: Key, raws: seq<string>, now: nat): seq<Card> {
    seq(|raws|, i requires 0 <= i < |raws| => NewCard(sign, key, raws[i], now))
  }

  /**
   * The reference behaviour of generate_card from a given attempt on: the first
   * attempt whose batch can be inserted without breaking the primary key is
   * inserted whole; a colliding batch is thrown away and costs one attempt.
   * Callers pass draws with DrawsFit(draws, batchSize), which makes each batch
   * BatchLength(batchSize) long, so an empty batch means exactly batchSize < 1.
   */
  function GenerateFrom(sign: SignFn, key: Key, rows: seq<Card>, batchSize: int,
                        draws: seq<seq<string>>, now: nat, attempt: nat): (Result<string, GenerateError>, seq<Card>)
    requires |draws| == MaxAttempts && attempt <= MaxAttempts
    decreases MaxAttempts - attempt
  {
    if attempt == MaxAttempts then (Failure(UniqueCardUnavailable), rows)
    else
      var batch := Mint(sign, key, draws[attempt], now);
      if UniqueIds(rows + batch) then
        if |batch| == 0 then (Failure(EmptyBatch), rows + batch)
        else (Success(batch[0].cardId), rows + batch)
      else GenerateFrom(sign, key, rows, batchSize, draws, now, attempt + 1)
  }

  /** A failed generation leaves the table as it was. */
  lemma {:induction false} GenerateFailureKeepsRows(sign: SignFn, key: Key, rows: seq<Card>, batchSize: int,
                                                     draws: seq<seq<string>>, now: nat, attempt: nat)
    requires DrawsFit(draws, batchSize) && attempt <= MaxAttempts
    ensures GenerateFrom(sign, key, rows, batchSize, draws, now, attempt).0.Failure? ==>
      GenerateFrom(sign, key, rows, batchSize, draws, now, attempt).1 == rows
    decreases MaxAttempts - attempt
  {
    if attempt < MaxAttempts {
      var batch := Mint(sign, key, draws[attempt], now);
      if UniqueIds(rows + batch) {
        assert |batch| == 0 ==> rows + batch == rows;
      } else {
        GenerateFailureKeepsRows(sign, key, rows, batchSize, draws, now, attempt + 1);
      }
    }
  }

  /**
   * Generation fails with the empty-batch error exactly when the size is below one
   * (the empty batch never collides), and with the exhaustion error exactly when
   * every remaining attempt's batch collides.
   */
  lemma {:induction false} GenerateErrors(sign: SignFn, key: Key, rows: seq<Card>, batchSize: int,
                                           draws: seq<seq<string>>, now: nat, attempt: nat)
    requires UniqueIds(rows) && DrawsFit(draws, batchSize) && attempt <= MaxAttempts
    ensures GenerateFrom(sign, key, rows, batchSize, draws, now, attempt).0 == Failure(EmptyBatch) <==>
      attempt < MaxAttempts && batchSize < 1
    ensures GenerateFrom(sign, key, rows, batchSize, draws, now, attempt).0 == Failure(UniqueCardUnavailable) <==>
      forall a :: attempt <= a < MaxAttempts ==> !UniqueIds(rows + Mint(sign, key, draws[a], now))
    decreases MaxAttempts - attempt
  {
    if attempt < MaxAttempts {
      var batch := Mint(sign, key, draws[attempt], now);
      if batchSize < 1 {
        assert rows + batch == rows;
      } else if !UniqueIds(rows + batch) {
        GenerateErrors(sign, key, rows, batchSize, draws, now, attempt + 1);
      }
    }
  }

  /**
   * A successful generation from a given attempt on inserts one of the remaining
   * attempts' batches whole, keeps ids unique, and returns the first new id.
   */
  lemma {:induction false} GenerateInsertsOneBatch(sign: SignFn, key: Key, rows: seq<Card>, batchSize: int,
                                                   draws: seq<seq<string>>, now: nat, attempt: nat)
    requires DrawsFit(draws, batchSize) && attempt <= MaxAttempts
    ensures var (r, after) := GenerateFrom(sign, key, rows, batchSize, draws, now, attempt);
      r.Success? ==>
        && batchSize >= 1
        && UniqueIds(after)
        && |after| == |rows| + batchSize
        && r.value == after[|rows|].cardId
        && exists a :: attempt <= a < MaxAttempts && after == rows + Mint(sign, key, draws[a], now)
    decreases MaxAttempts - attempt
  {
    if attempt < MaxAttempts {
      var batch := Mint(sign, key, draws[attempt], now);
      if !UniqueIds(rows + batch) {
        GenerateInsertsOneBatch(sign, key, rows, batchSize, draws, now, attempt + 1);
        var (r, after) := GenerateFrom(sign, key, rows, batchSize, draws, now, attempt + 1);
        if r.Success? {
          var a :| attempt + 1 <= a < MaxAttempts && after == rows + Mint(sign, key, draws[a], now);
          assert attempt <= a;
        }
      } else if |batch| > 0 {
        assert (rows + batch)[|rows|] == batch[0];
      }
    }
  }

  /** A row exactly as a successful generation inserts it. */
  predicate IsFreshCard(sign: SignFn, key: Key, c: Card, now: nat) {
    && IsRawPart(c.rawPart)
    && c.signature == sign(key, c.rawPart)
    && c.cardId == CardId(c.rawPart, c.signature)
    && c.createdAt == now && !c.isUsed && c.usedAt == None && c.usageCount == 0
  }

  /** Every card built from drawn raw parts is fresh. */
  lemma MintIsFresh(sign: SignFn, key: Key, raws: seq<string>, now: nat)
    requires forall j :: 0 <= j < |raws| ==> IsRawPart(raws[j])
    ensures var batch := Mint(sign, key, raws, now);
      |batch| == |raws| && forall i :: 0 <= i < |batch| ==> IsFreshCard(sign, key, batch[i], now)
  {
  }

  /**
   * A successful generate_card(n) appends exactly n fresh rows with n new ids and
   * leaves the existing rows as they were; it returns the first new id, and the
   * statistics' total grows by exactly n.
   */
  lemma GenerateSuccess(sign: SignFn, key: Key, rows: seq<Card>, batchSize: int, draws: seq<seq<string>>, now: nat)
    requires UniqueIds(rows) && DrawsFit(draws, batchSize)
    ensures var (r, after) := GenerateFrom(sign, key, rows, batchSize, draws, now, 0);
      r.Success? ==>
        && batchSize >= 1
        && |after| == |rows| + batchSize && after[..|rows|] == rows
        && UniqueIds(after)
        && Ids(rows) <= Ids(after) && |Ids(after)| == |Ids(rows)| + batchSize
        && (forall i :: |rows| <= i < |after| ==> IsFreshCard(sign, key, after[i], now))
        && r.value == after[|rows|].cardId
        && Stats(after).total == Stats(rows).total + batchSize
  {
    GenerateInsertsOneBatch(sign, key, rows, batchSize, draws, now, 0);
    var (r, after) := GenerateFrom(sign, key, rows, batchSize, draws, now, 0);
    if r.Success? {
      var a :| 0 <= a < MaxAttempts && after == rows + Mint(sign, key, draws[a], now);
      var batch := Mint(sign, key, draws[a], now);
      MintIsFresh(sign, key, draws[a], now);
      assert after[..|rows|] == rows;
      forall i | |rows| <= i < |after| ensures IsFreshCard(sign, key, after[i], now) {
        assert after[i] == batch[i - |rows|];
      }
      assert Ids(rows) <= Ids(after) by {
        forall id | id in Ids(rows) ensures id in Ids(after) {
          var k :| 0 <= k < |rows| && rows[k].cardId == id;
          assert after[k] == rows[k];
        }
      }
      UniqueIdsCount(rows);
      UniqueIdsCount(after);
    }
  }

  /**
   * Generation inserts only unused rows with zero counters, so the used count and the
   * total of the usage counters are the same after it as before.
   */
  lemma GenerateKeepsUseTotals(sign: SignFn, key: Key, rows: seq<Card>, batchSize: int, draws: seq<seq<string>>, now: nat)
    requires UniqueIds(rows) && DrawsFit(draws, batchSize)
    ensures var after := GenerateFrom(sign, key, rows, batchSize, draws, now, 0).1;
      CountUsed(after) == CountUsed(rows) && TotalUses(after) == TotalUses(rows)
  {
    GenerateFailureKeepsRows(sign, key, rows, batchSize, draws, now, 0);
    GenerateInsertsOneBatch(sign, key, rows, batchSize, draws, now, 0);
    var (r, after) := GenerateFrom(sign, key, rows, batchSize, draws, now, 0);
    if r.Success? {
      var a :| 0 <= a < MaxAttempts && after == rows + Mint(sign, key, draws[a], now);
      var batch := Mint(sign, key, draws[a], now);
      UnusedRowsCountNothing(batch);
      CountUsedAppend(rows, batch);
      TotalUsesAppend(rows, batch);
    }
  }

  /**
   * Right after generation a fresh row is reported valid and unused with a zero
   * counter, unless its raw part drew the separator: then the length check rejects it.
   */
  lemma FreshCardVerdict(sign: SignFn, key: Key, rows: seq<Card>, i: nat, now: nat)
    requires TruncatedHexDigest(sign) && UniqueIds(rows)
    requires i < |rows| && IsFreshCard(sign, key, rows[i], now)
    ensures Verify(sign, key, rows, rows[i].cardId, false) ==
      if Separator in rows[i].rawPart then Reported(Rejected(WrongLength))
      else Reported(Verdict(true, Some(false), 0, None))
  {
    if Separator in rows[i].rawPart {
      SeparatorInRawPartRejected(sign, key, rows, rows[i].rawPart, rows[i].signature, false);
    } else {
      IssuedCardVerifies(sign, key, rows, i);
    }
  }

  /**
   * The alphabet lets generation draw a raw part holding the separator, and the card
   * made from it is rejected by verify even though it is in the store.
   */
  lemma SomeIssuedCardIsRejected(sign: SignFn, key: Key, rows: seq<Card>, now: nat)
    ensures exists raw :: (IsRawPart(raw) && Separator in raw &&
      var c := NewCard(sign, key, raw, now);
      c.cardId in Ids(rows + [c]) &&
      Verify(sign, key, rows + [c], c.cardId, false) == Reported(Rejected(WrongLength)))
  {
    var raw := "ABCDEFGH#JKLMNPQ";
    assert raw[8] == Separator;
    assert forall i :: 0 <= i < |raw| ==> raw[i] in Charset;
    var c := NewCard(sign, key, raw, now);
    assert (rows + [c])[|rows|] == c;
    SeparatorInRawPartRejected(sign, key, rows + [c], raw, c.signature, false);
  }

  // ---- The store invariant that generation and redemption keep ----

  /** Every row is a signed token over a drawn raw part with consistent usage fields. */
  ghost predicate WellFormedStore(sign: SignFn, key: Key, rows: seq<Card>) {
    forall i :: 0 <= i < |rows| ==>
      && IsRawPart(rows[i].rawPart)
      && rows[i].signature == sign(key, rows[i].rawPart)
      && rows[i].cardId == CardId(rows[i].rawPart, rows[i].signature)
      && UsageConsistent(rows[i])
  }

  lemma GenerateKeepsWellFormed(sign: SignFn, key: Key, rows: seq<Card>, batchSize: int, draws: seq<seq<string>>, now: nat)
    requires UniqueIds(rows) && DrawsFit(draws, batchSize) && WellFormedStore(sign, key, rows)
    ensures WellFormedStore(sign, key, GenerateFrom(sign, key, rows, batchSize, draws, now, 0).1)
  {
    GenerateFailureKeepsRows(sign, key, rows, batchSize, draws, now, 0);
    var (r, after) := GenerateFrom(sign, key, rows, batchSize, draws, now, 0);
    if r.Success? {
      GenerateSuccess(sign, key, rows, batchSize, draws, now);
      forall i | 0 <= i < |after|
        ensures IsRawPart(after[i].rawPart) && after[i].signature == sign(key, after[i].rawPart)
        ensures after[i].cardId == CardId(after[i].rawPart, after[i].signature) && UsageConsistent(after[i])
      {
        if i < |rows| {
          assert after[i] == after[..|rows|][i] == rows[i];
        } else {
          assert IsFreshCard(sign, key, after[i], now);
        }
      }
    }
  }

  lemma RedeemKeepsWellFormed(sign: SignFn, key: Key, rows: seq<Card>, id: string, now: nat)
    requires WellFormedStore(sign, key, rows)
    ensures WellFormedStore(sign, key, Redeem(rows, id, now))
  {
    RedeemKeepsUsageConsistent(rows, id, now);
  }

  // ---- The system object ----

  /**
   * CardSystem: the cards table, the secrets table's 'hmac_key' slot and the key
   * loaded at construction; the signer is fixed for the object's lifetime.
   */
  class CardSystem {
    const sign: SignFn
    var key: Key
    var secret: Option<Key>
    var rows: seq<Card>

    ghost predicate Valid()
      reads this
    {
      TruncatedHexDigest(sign) && UniqueIds(rows) && secret == Some(key)
    }

    /**
     * Opening the system on persisted tables: the stored key when there is one,
     * otherwise the freshly drawn entropy, which is stored.
     */
    constructor (sign: SignFn, storedRows: seq<Card>, storedSecret: Option<Key>, entropy: Key)
      requires TruncatedHexDigest(sign) && UniqueIds(storedRows) && |entropy| == KeyLength
      ensures Valid()
      ensures this.sign == sign && rows == storedRows
      ensures key == (if storedSecret.Some? then storedSecret.value else entropy)
    {
      this.sign := sign;
      rows := storedRows;
      secret := storedSecret;
      key := [];
      new;
      key := LoadOrGenerateKey(entropy);
    }

    /**
     * _load_or_generate_key: return the stored secret verbatim, or store the
     * 32 bytes drawn from the random source and return them. Either way the slot
     * holds the returned key afterwards, so a later call returns the same key.
     */
    method LoadOrGenerateKey(entropy: Key) returns (k: Key)
      requires |entropy| == KeyLength
      modifies this`secret
      ensures secret == Some(k)
      ensures old(secret).Some? ==> k == old(secret).value
      ensures old(secret).None? ==> k == entropy && |k| == KeyLength
    {
      if secret.Some? {
        return secret.value;
      }
      secret := Some(entropy);
      k := entropy;
    }

    /**
     * generate_card: up to five attempts, each building a batch from that attempt's
     * draws and inserting it in one transaction, which the primary key either takes
     * whole or refuses whole.
     */
    method GenerateCard(batchSize: int := 100, draws: seq<seq<string>>, now: nat) returns (r: Result<string, GenerateError>)
      requires Valid() && DrawsFit(draws, batchSize)
      modifies this`rows
      ensures Valid()
      ensures (r, rows) == GenerateFrom(sign, key, old(rows), batchSize, draws, now, 0)
    {
      var attempts := 0;
      while attempts < MaxAttempts
        invariant 0 <= attempts <= MaxAttempts
        invariant rows == old(rows)
        invariant GenerateFrom(sign, key, rows, batchSize, draws, now, attempts) ==
                  GenerateFrom(sign, key, rows, batchSize, draws, now, 0)
        decreases MaxAttempts - attempts
      {
        var raws := draws[attempts];
        var cards: seq<Card> := [];
        for j := 0 to BatchLength(batchSize)
          invariant cards == Mint(sign, key, raws[..j], now)
        {
          var raw := raws[j];
          var signature := sign(key, raw);
          cards := cards + [Card(CardId(raw, signature), raw, signature, now, false, None, 0)];
        }
        assert raws[..BatchLength(batchSize)] == raws;
        if UniqueIds(rows + cards) {
          rows := rows + cards;
          if |cards| == 0 {
            return Failure(EmptyBatch);
          }
          return Success(cards[0].cardId);
        }
        attempts := attempts + 1;
      }
      r := Failure(UniqueCardUnavailable);
    }

    /**
     * mark_as_used: the single-row update keyed by the exact token. True exactly
     * when a row was changed; a storage fault inside the update changes nothing and
     * reports false.
     */
    method MarkAsUsed(card: string, now: nat, storageFault: bool) returns (ok: bool)
      requires Valid()
      modifies this`rows
      ensures Valid()
      ensures ok <==> !storageFault && card in Ids(old(rows))
      ensures rows == if storageFault then old(rows) else Redeem(old(rows), card, now)
    {
      if storageFault {
        return false;
      }
      match Find(rows, card) {
        case None =>
          RedeemAbsent(rows, card, now);
          ok := false;
        case Some(i) =>
          ghost var before := rows;
          rows := rows[i := Redeemed(rows[i], now)];
          forall j | 0 <= j < |before| && j != i ensures before[j].cardId != card {
            if j < i {
            } else {
              assert before[i].cardId != before[j].cardId;
            }
          }
          assert rows == Redeem(before, card, now);
          ok := true;
      }
    }
  }
}
