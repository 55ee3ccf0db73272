# Card lifecycle engine

A Dafny model of the `CardSystem` class of a small activation-code issuer (`main.py`). The class signs random raw parts with a deployment secret and issues the resulting tokens ("cards"). It checks presented tokens, records redemptions and reports statistics over its cards table.

- A card id is `raw + "#" + signature`. The raw part has 16 characters drawn from `ABCDEFGHJKLMNPQRSTUVWXYZ23456789!@#$%^&*`. The signature is the first 10 hex digits of an HMAC-SHA3-256 digest of the raw part.
- The secret is 32 random bytes. It is stored once in a secrets table and read back on every later start.
- Generation builds a batch, inserts it in one transaction and retries a colliding batch, at most 5 attempts in all.
- Verification runs an ordered chain of checks: separator, then lengths, then signature, then lookup.
- Redemption is one `UPDATE` that sets the used flag, stamps the time and increments the counter.
- Statistics is one aggregate query.

## Layout

- `wrappers.dfy`: `Option` and `Result`.
- `signer.dfy`: the key type, and the signer as a function value `SignFn`. `TruncatedHexDigest(sign)` says every output is 10 lowercase hex characters. That is all the model assumes about HMAC-SHA3-256 cut to 10 characters.
- `card_format.dfy`: the token format, the alphabet, and `SplitAtFirst` (the model of `str.split('#', 1)`), with lemmas about how a token splits.
- `card_store.dfy`: the cards table as a `seq<Card>` in insertion (rowid) order. The primary key on `card_id` is `UniqueIds`. The file also holds point lookup (`Find`), the redemption update (`Redeem`) and the statistics query (`Stats`).
- `card_engine.dfy`: `Verify`, and the reference definition of generation (`GenerateFrom`) with its lemmas. It also holds the class `CardSystem`: its fields are the signer, the loaded key, the secret slot and the table. Its constructor and its methods `LoadOrGenerateKey`, `GenerateCard` and `MarkAsUsed` update those fields in place.

`verify_card` and `get_card_stats` only read state. They are the functions `CardEngine.Verify` and `CardStore.Stats`, applied to the system's signer, key and rows. Being functions, they cannot change the table or the key, and two calls on the same state give the same result.

Randomness is passed in as inputs:
- the 32 bytes of a new key are the `entropy` parameter;
- the raw parts for generation are `draws`, one batch per attempt, each raw part satisfying `IsRawPart`.

The clock `CURRENT_TIMESTAMP` is a natural-number parameter `now`. A storage fault inside the `try` blocks of `verify_card` and `mark_as_used` is a boolean `storageFault`.

## Where the code departs from its intended behaviour (the model follows the code)

- The alphabet contains the separator `#` (`main.py:62`), although the separator is meant to be absent from the alphabet. Verification splits at the first `#` (`main.py:105`). So a generated card whose raw part drew a `#` goes into the store but is always rejected with the length error. `SeparatorInRawPartRejected`, `FreshCardVerdict` and `SomeIssuedCardIsRejected` prove this. "Every generated card verifies" is proved only for raw parts without `#` (`IssuedCardVerifies`).
- The code reports a wrong length with its own message, distinct from the missing-separator message. The model has two errors: `MissingSeparator` and `WrongLength`.
- The code accepts more `#` characters in the signature part. They only make that part fail the length or signature check.
- `hmac.compare_digest` raises `TypeError` when given a str with non-ASCII characters. This happens for a well-shaped token whose signature part is not ASCII, and it is not caught. The model's `Verify` returns `RaisesTypeError` in that case.
- `batch_size < 1`: the empty batch is inserted, then `cards[0]` raises `IndexError`. This is `GenerateError.EmptyBatch`, and the table is unchanged.
- On an empty table, `SUM`, `MIN` and `MAX` are `NULL`, so `used_count`, `total_uses`, `oldest` and `newest` are `None`. These counts were meant to be zero on an empty table.
- The key is inserted without handling a concurrent first-run conflict.

## Model

| member | source | states |
|---|---|---|
| CardFormat.SplitAtFirst | main.py:101-105 | None exactly when the token has no `#`; otherwise token = left + `#` + right with no `#` in left (the split at the first `#`) |
| CardFormat.SplitCardId | main.py:71-71 | an id built as raw + `#` + signature, with raw free of `#`, splits back into exactly that raw part and signature |
| CardFormat.SplitInsideRawPart | main.py:105-105 | when the raw part contains `#`, the left part of the split is strictly shorter than the raw part |
| CardFormat.SplitLengthsIffWellShaped | main.py:105-108 | the split passes the 16/10 length check exactly when the token is 27 long, has `#` at index 16 and none before; the parts are then the first 16 and last 10 characters |
| CardFormat.FirstSeparatorUnique | main.py:105-105 | the decomposition left + `#` + right with `#` not in left is unique |
| Signer.SignatureIsAscii | main.py:110-110 | a 10-character lowercase hex signature is ASCII, so comparing it never raises |
| CardStore.Find | main.py:115-122 | None exactly when no row holds the id; otherwise the first row holding it |
| CardStore.FindUnique | main.py:12-12 | under the primary key, the lookup returns the one row holding the id |
| CardStore.Redeem | main.py:140-147 | the update keeps every row's id and every row without that id; a row with that id becomes used, stamped `now`, counter + 1, other fields kept; no counter decreases |
| CardStore.RedeemAbsent | main.py:145-149 | an update of an id no row holds changes nothing |
| CardStore.RedeemKeepsUsageConsistent | main.py:142-144 | redemption keeps "used_at set, and is_used, exactly when usage_count > 0" on every row |
| CardStore.Oldest | main.py:161-161 | MIN(created_at) is some row's creation time and no later than any row's |
| CardStore.Newest | main.py:162-162 | MAX(created_at) is some row's creation time and no earlier than any row's |
| CardStore.Stats | main.py:156-166 | total is the number of rows; an empty table gives all NULLs and total 0; otherwise used_count ≤ total and oldest ≤ every created_at ≤ newest |
| CardStore.StatsCountDistinctCards | main.py:156-159 | under the primary key, total is the number of distinct ids and used_count the number of distinct used cards |
| CardStore.UnusedRowsCountNothing | main.py:16-18 | rows never used add nothing to SUM(is_used) or SUM(usage_count) |
| CardStore.RedeemUses | main.py:144-144 | redeeming a present card raises the sum of counters by exactly 1, and the used count by 1 exactly when it was unused |
| CardStore.RedeemStats | main.py:158-162 | after redeeming a present card, the stats row has the same total, oldest and newest, and total_uses one higher |
| CardEngine.Verify | main.py:87-132 | the ordered check chain: no `#` gives the format error; not well-shaped gives the length error; a non-ASCII part raises TypeError; wrong signature gives the signature error; storage error and unknown card only for signed tokens; valid exactly for signed tokens in the store with no fault, reporting the stored is_used and usage_count; every rejection has is_used None and usage_count 0 |
| CardEngine.VerifyAcceptsExactlyStoredSignedCards | main.py:109-128 | with a hex signer: valid exactly when the signature part equals Sign(key, raw), the whole id is in the store, and no storage fault |
| CardEngine.SeparatorInRawPartRejected | main.py:105-108 | a token whose 16-character raw part contains `#` gets the length error, whatever its signature, store or fault |
| CardEngine.TamperedSignatureRejected | main.py:109-112 | a token whose signature part is any other 10-character ASCII string gets the signature error |
| CardEngine.IssuedCardVerifies | main.py:113-128 | a correctly signed row whose raw part has no `#` is reported valid with its stored is_used and usage_count |
| CardEngine.RedeemThenVerify | main.py:140-144 | after redeeming a card verify accepts, verify reports it used with counter one higher |
| CardEngine.GenerateFailureKeepsRows | main.py:73-85 | a failed generation leaves the table unchanged |
| CardEngine.GenerateErrors | main.py:64-85 | EmptyBatch exactly when batch_size < 1; exhaustion exactly when every remaining attempt's batch collides with the table or within itself |
| CardEngine.GenerateInsertsOneBatch | main.py:66-80 | a success inserts one attempt's whole batch of batch_size rows, keeps ids unique and returns the first new id |
| CardEngine.MintIsFresh | main.py:67-71 | every card built from drawn raw parts has id raw + `#` + Sign(key, raw), a 16-character raw part from the alphabet, is unused with counter 0 |
| CardEngine.GenerateSuccess | main.py:66-80 | success appends exactly n fresh rows, keeps old rows, adds exactly n new ids, returns the first new id, and raises stats total by n |
| CardEngine.GenerateKeepsUseTotals | main.py:75-79 | generation leaves the used count and the sum of usage counters unchanged |
| CardEngine.FreshCardVerdict | main.py:62-71 | a freshly generated card verifies as valid, unused, count 0, unless its raw part drew `#`, then it gets the length error |
| CardEngine.SomeIssuedCardIsRejected | main.py:62-62 | some drawable raw part contains `#`; its card, once stored, is rejected by verify with the length error |
| CardEngine.GenerateKeepsWellFormed | main.py:66-80 | generation keeps every row a signed token over a drawn raw part with consistent usage fields |
| CardEngine.RedeemKeepsWellFormed | main.py:138-149 | redemption keeps that same store invariant |
| CardEngine.CardSystem.constructor | main.py:26-28 | the loaded key is the stored secret if there is one, otherwise the drawn entropy; the table is as persisted; the slot holds the key |
| CardEngine.CardSystem.LoadOrGenerateKey | main.py:49-59 | returns the stored key verbatim, or stores and returns the new 32-byte key; afterwards the slot holds the returned key, so a second call returns it again |
| CardEngine.CardSystem.GenerateCard | main.py:61-85 | batch size defaults to 100; the returned result and new table are those of the reference generation with its at most 5 attempts; the primary key still holds |
| CardEngine.CardSystem.MarkAsUsed | main.py:134-151 | returns true exactly when there is no fault and a row holds the id; without a fault the table becomes the update's result, with one the table is unchanged |

## Left out

- SQLite plumbing: connections, the schema text with its indices, `row_factory`, and commits. The table is a sequence with a uniqueness predicate. `executemany` plus commit is one all-or-nothing append.
- The cryptography: HMAC-SHA3-256 and the constant-time property of `compare_digest`. The signer is a parameter satisfying `TruncatedHexDigest`. The comparison is string equality, plus its `TypeError` on non-ASCII input. Timing cannot be expressed.
- `raw.encode()` raising on lone surrogates: Dafny characters cannot hold them.
- Randomness (`secrets.token_bytes`, `secrets.choice`): supplied as the `entropy` and `draws` inputs.
- Wall-clock timestamps: modelled as a natural-number `now`. All rows of one batch share one reading.
- Storage faults outside the `try` blocks, and any fault in `_load_or_generate_key`, `generate_card` and `get_card_stats`: not modelled. These faults propagate as exceptions in the code.
- Integer width: `usage_count` is unbounded here. SQLite's 64-bit overflow is not modelled.
- The interactive `__main__` block (`input`, `print`, `time.sleep`): pure I/O.
- Concurrency: first-run key races and concurrent redemption. These depend on the database engine.
- CardEngine.CardSystem.GenerateCard: its contract names the reference `GenerateFrom`. The reference's properties are stated by the lemmas above, not repeated in the method's `ensures`.
