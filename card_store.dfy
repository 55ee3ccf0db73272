/**
 * The cards table. Rows are kept in insertion order, as the table's rowid order keeps
 * them; the primary key on card_id is the predicate UniqueIds. Timestamps are readings
 * of an abstract clock (natural numbers).
 */
module CardStore {
  import opened Wrappers

  /** One row of the cards table. */
  datatype Card = Card(
    cardId: string,
    rawPart: string,
    signature: string,
    createdAt: nat,
    isUsed: bool,
    usedAt: Option<nat>,
    usageCount: nat)

  /** The set of card ids present in the table. */
  function Ids(rows: seq<Card>): set<string> {
    set i | 0 <= i < |rows| :: rows[i].cardId
  }

  /** The primary-key constraint: no two rows share a card id. */
  predicate UniqueIds(rows: seq<Card>) {
    forall i, j :: 0 <= i < j < |rows| ==> rows[i].cardId != rows[j].cardId
  }

  /** Point lookup of a card id: the first row holding it, as fetchone returns. */
  function Find(rows: seq<Card>, id: string): (r: Option<nat>)
    ensures r.None? <==> id !in Ids(rows)
    ensures r.Some? ==> r.value < |rows| && rows[r.value].cardId == id
    ensures r.Some? ==> forall j :: 0 <= j < r.value ==> rows[j].cardId != id
  {
    if |rows| == 0 then None
    else if rows[0].cardId == id then Some(0)
    else
      assert Ids(rows) == {rows[0].cardId} + Ids(rows[1..]) by {
        assert forall i :: 0 < i < |rows| ==> rows[i] == rows[1..][i - 1];
      }
      match Find(rows[1..], id)
      case None => None
      case Some(k) => Some(k + 1)
  }

  /** With unique ids, the row Find reports is the only one with that id. */
  lemma FindUnique(rows: seq<Card>, id: string, i: nat)
    requires UniqueIds(rows)
    requires i < |rows| && rows[i].cardId == id
    ensures Find(rows, id) == Some(i)
  {
    assert id in Ids(rows);
  }

  /** The record after one redemption: used, stamped, its counter one higher. */
  function Redeemed(c: Card, now: nat): Card {
    c.(isUsed := true, usedAt := Some(now), usageCount := c.usageCount + 1)
  }

  /**
   * The table after `UPDATE cards SET is_used, used_at, usage_count + 1 WHERE
   * card_id = id`: every row with that id is redeemed, every other row is left alone.
   */
  function Redeem(rows: seq<Card>, id: string, now: nat): (r: seq<Card>)
    ensures |r| == |rows| && Ids(r) == Ids(rows)
    ensures forall i :: 0 <= i < |rows| && rows[i].cardId != id ==> r[i] == rows[i]
    ensures forall i :: 0 <= i < |rows| && rows[i].cardId == id ==>
      && r[i].cardId == id && r[i].rawPart == rows[i].rawPart
      && r[i].signature == rows[i].signature && r[i].createdAt == rows[i].createdAt
      && r[i].isUsed && r[i].usedAt == Some(now)
      && r[i].usageCount == rows[i].usageCount + 1
    ensures forall i :: 0 <= i < |rows| ==> r[i].usageCount >= rows[i].usageCount
  {
    var r := seq(|rows|, i requires 0 <= i < |rows| =>
      if rows[i].cardId == id then Redeemed(rows[i], now) else rows[i]);
    assert forall i :: 0 <= i < |rows| ==> r[i].cardId == rows[i].cardId;
    r
  }

  /** used_at and is_used are set exactly when the counter is positive; generation and redemption keep this. */
  predicate UsageConsistent(c: Card) {
    (c.usedAt.Some? <==> c.usageCount > 0) && (c.isUsed <==> c.usageCount > 0)
  }

  /** Redemption keeps that invariant on every row. */
  lemma RedeemKeepsUsageConsistent(rows: seq<Card>, id: string, now: nat)
    requires forall i :: 0 <= i < |rows| ==> UsageConsistent(rows[i])
    ensures var r := Redeem(rows, id, now);
      forall i :: 0 <= i < |r| ==> UsageConsistent(r[i])
  {
    var r := Redeem(rows, id, now);
    forall i | 0 <= i < |r| ensures UsageConsistent(r[i]) {
      if rows[i].cardId == id {
        assert r[i].usageCount > 0;
      } else {
        assert r[i] == rows[i];
      }
    }
  }

  // ---- The statistics query ----

  /**
   * The row returned by the aggregate query. SUM, MIN and MAX of an empty table are
   * NULL, which is None here; COUNT(*) is 0.
   */
  datatype CardStats = CardStats(
    total: nat,
    usedCount: Option<nat>,
    totalUses: Option<nat>,
    oldest: Option<nat>,
    newest: Option<nat>)

  /** SUM(is_used) over a non-empty table, booleans counting as 0 or 1. */
  function CountUsed(rows: seq<Card>): nat {
    if rows == [] then 0 else (if rows[0].isUsed then 1 else 0) + CountUsed(rows[1..])
  }

  /** SUM(usage_count) over a non-empty table. */
  function TotalUses(rows: seq<Card>): nat {
    if rows == [] then 0 else rows[0].usageCount + TotalUses(rows[1..])
  }

  /** MIN(created_at): a creation time of some row, no later than any row's. */
  function Oldest(rows: seq<Card>): (m: nat)
    requires rows != []
    ensures forall i :: 0 <= i < |rows| ==> m <= rows[i].createdAt
    ensures exists i :: 0 <= i < |rows| && rows[i].createdAt == m
  {
    if |rows| == 1 then rows[0].createdAt
    else
      var rest := Oldest(rows[1..]);
      assert forall i :: 0 < i < |rows| ==> rows[i] == rows[1..][i - 1];
      if rows[0].createdAt <= rest then rows[0].createdAt else rest
  }

  /** MAX(created_at): a creation time of some row, no earlier than any row's. */
  function Newest(rows: seq<Card>): (m: nat)
    requires rows != []
    ensures forall i :: 0 <= i < |rows| ==> rows[i].createdAt <= m
    ensures exists i :: 0 <= i < |rows| && rows[i].createdAt == m
  {
    if |rows| == 1 then rows[0].createdAt
    else
      var rest := Newest(rows[1..]);
      assert forall i :: 0 < i < |rows| ==> rows[i] == rows[1..][i - 1];
      if rows[0].createdAt >= rest then rows[0].createdAt else rest
  }

  /** The ids of the rows marked used. */
  function UsedIds(rows: seq<Card>): set<string> {
    set i | 0 <= i < |rows| && rows[i].isUsed :: rows[i].cardId
  }

  /** get_card_stats: the one row of the aggregate query over the whole table. */
  function Stats(rows: seq<Card>): (s: CardStats)
    ensures s.total == |rows|
    ensures rows == [] ==> s == CardStats(0, None, None, None, None)
    ensures rows != [] ==> s.usedCount.Some? && s.totalUses.Some? && s.oldest.Some? && s.newest.Some?
    ensures rows != [] ==> s.usedCount.value <= s.total
    ensures rows != [] ==> forall i :: 0 <= i < |rows| ==>
      s.oldest.value <= rows[i].createdAt <= s.newest.value
  {
    if rows == [] then CardStats(0, None, None, None, None)
    else
      CountUsedBound(rows);
      CardStats(|rows|, Some(CountUsed(rows)), Some(TotalUses(rows)), Some(Oldest(rows)), Some(Newest(rows)))
  }

  lemma {:induction false} CountUsedBound(rows: seq<Card>)
    ensures CountUsed(rows) <= |rows|
  {
    if rows != [] {
      CountUsedBound(rows[1..]);
    }
  }

  /** Dropping the first row of a table drops exactly its id, when ids are unique. */
  lemma IdsTail(rows: seq<Card>)
    requires rows != [] && UniqueIds(rows)
    ensures Ids(rows) == {rows[0].cardId} + Ids(rows[1..])
    ensures rows[0].cardId !in Ids(rows[1..])
    ensures UsedIds(rows) == (if rows[0].isUsed then {rows[0].cardId} else {}) + UsedIds(rows[1..])
  {
    assert forall i :: 0 < i < |rows| ==> rows[i] == rows[1..][i - 1];
    assert forall i :: 0 <= i < |rows| - 1 ==> rows[1..][i] == rows[i + 1];
  }

  /** With unique ids the table has as many distinct ids as rows. */
  lemma {:induction false} UniqueIdsCount(rows: seq<Card>)
    requires UniqueIds(rows)
    ensures |Ids(rows)| == |rows|
  {
    if rows != [] {
      IdsTail(rows);
      UniqueIdsCount(rows[1..]);
    }
  }

  /**
   * Under the primary key, COUNT(*) is the number of distinct cards and SUM(is_used)
   * the number of distinct used cards.
   */
  lemma StatsCountDistinctCards(rows: seq<Card>)
    requires UniqueIds(rows) && rows != []
    ensures Stats(rows).total == |Ids(rows)|
    ensures Stats(rows).usedCount == Some(|UsedIds(rows)|)
  {
    CountUsedIsUsedIds(rows);
    UniqueIdsCount(rows);
  }

  /** With unique ids, SUM(is_used) is the number of distinct used cards. */
  lemma {:induction false} CountUsedIsUsedIds(rows: seq<Card>)
    requires UniqueIds(rows)
    ensures CountUsed(rows) == |UsedIds(rows)|
  {
    if rows != [] {
      IdsTail(rows);
      assert rows[0].cardId !in UsedIds(rows[1..]) by {
        assert UsedIds(rows[1..]) <= Ids(rows[1..]);
      }
      CountUsedIsUsedIds(rows[1..]);
    }
  }

  lemma {:induction false} TotalUsesAppend(a: seq<Card>, b: seq<Card>)
    ensures TotalUses(a + b) == TotalUses(a) + TotalUses(b)
  {
    if a != [] {
      assert (a + b)[1..] == a[1..] + b;
      TotalUsesAppend(a[1..], b);
    } else {
      assert a + b == b;
    }
  }

  lemma {:induction false} CountUsedAppend(a: seq<Card>, b: seq<Card>)
    ensures CountUsed(a + b) == CountUsed(a) + CountUsed(b)
  {
    if a != [] {
      assert (a + b)[1..] == a[1..] + b;
      CountUsedAppend(a[1..], b);
    } else {
      assert a + b == b;
    }
  }

  /** Rows never used contribute nothing to SUM(is_used) or SUM(usage_count). */
  lemma {:induction false} UnusedRowsCountNothing(rows: seq<Card>)
    requires forall i :: 0 <= i < |rows| ==> !rows[i].isUsed && rows[i].usageCount == 0
    ensures CountUsed(rows) == 0 && TotalUses(rows) == 0
  {
    if rows != [] {
      assert forall i :: 0 <= i < |rows| - 1 ==> rows[1..][i] == rows[i + 1];
      UnusedRowsCountNothing(rows[1..]);
    }
  }

  /** Redeeming the rows after the first is the tail of redeeming the whole table. */
  lemma RedeemTail(rows: seq<Card>, id: string, now: nat)
    requires rows != []
    ensures Redeem(rows, id, now)[1..] == Redeem(rows[1..], id, now)
  {
    var r, t := Redeem(rows, id, now), Redeem(rows[1..], id, now);
    assert |r[1..]| == |t|;
    forall i | 0 <= i < |t| ensures r[1..][i] == t[i] {
      assert rows[1..][i] == rows[i + 1];
    }
  }

  /**
   * Redeeming a card present once adds exactly one to the total of the usage
   * counters; SUM(is_used) grows by one if the card was unused and stays otherwise.
   */
  lemma {:induction false} RedeemUses(rows: seq<Card>, id: string, now: nat, i: nat)
    requires UniqueIds(rows)
    requires i < |rows| && rows[i].cardId == id
    ensures TotalUses(Redeem(rows, id, now)) == TotalUses(rows) + 1
    ensures CountUsed(Redeem(rows, id, now)) == CountUsed(rows) + (if rows[i].isUsed then 0 else 1)
  {
    var r := Redeem(rows, id, now);
    RedeemTail(rows, id, now);
    assert TotalUses(r) == r[0].usageCount + TotalUses(r[1..]);
    assert CountUsed(r) == (if r[0].isUsed then 1 else 0) + CountUsed(r[1..]);
    if i == 0 {
      IdsTail(rows);
      RedeemAbsent(rows[1..], id, now);
    } else {
      var tail := rows[1..];
      assert tail[i - 1] == rows[i];
      assert UniqueIds(tail) by {
        assert forall a, b :: 0 <= a < b < |tail| ==> tail[a] == rows[a + 1] && tail[b] == rows[b + 1];
      }
      RedeemUses(tail, id, now, i - 1);
      assert rows[0].cardId != id;
    }
  }

  /** Redeeming an id no row holds changes nothing. */
  lemma RedeemAbsent(rows: seq<Card>, id: string, now: nat)
    requires id !in Ids(rows)
    ensures Redeem(rows, id, now) == rows
  {
    var r := Redeem(rows, id, now);
    forall i | 0 <= i < |rows| ensures r[i] == rows[i] {
      assert rows[i].cardId in Ids(rows);
    }
  }

  /** The statistics after a redemption of a present card: same total, one more use. */
  lemma RedeemStats(rows: seq<Card>, id: string, now: nat, i: nat)
    requires UniqueIds(rows)
    requires i < |rows| && rows[i].cardId == id
    ensures Stats(Redeem(rows, id, now)).total == Stats(rows).total
    ensures Stats(Redeem(rows, id, now)).totalUses == Some(TotalUses(rows) + 1)
    ensures Stats(Redeem(rows, id, now)).usedCount == Some(CountUsed(rows) + if rows[i].isUsed then 0 else 1)
    ensures Stats(Redeem(rows, id, now)).oldest == Stats(rows).oldest
    ensures Stats(Redeem(rows, id, now)).newest == Stats(rows).newest
  {
    RedeemUses(rows, id, now, i);
    RedeemKeepsTimes(rows, id, now);
  }

  /** Redemption leaves every creation time, hence MIN and MAX of them, as they were. */
  lemma RedeemKeepsTimes(rows: seq<Card>, id: string, now: nat)
    requires rows != []
    ensures Oldest(Redeem(rows, id, now)) == Oldest(rows)
    ensures Newest(Redeem(rows, id, now)) == Newest(rows)
  {
    var r := Redeem(rows, id, now);
    assert forall j :: 0 <= j < |rows| ==> r[j].createdAt == rows[j].createdAt;
    OldestNewestSameTimes(rows, r);
  }

  /** Tables with the same creation times row by row have the same oldest and newest. */
  lemma OldestNewestSameTimes(a: seq<Card>, b: seq<Card>)
    requires a != [] && |a| == |b|
    requires forall j :: 0 <= j < |a| ==> a[j].createdAt == b[j].createdAt
    ensures Oldest(a) == Oldest(b) && Newest(a) == Newest(b)
  {
    var ia :| 0 <= ia < |a| && a[ia].createdAt == Oldest(a);
    var ib :| 0 <= ib < |b| && b[ib].createdAt == Oldest(b);
    assert Oldest(a) <= a[ib].createdAt && Oldest(b) <= b[ia].createdAt;
    var ja :| 0 <= ja < |a| && a[ja].createdAt == Newest(a);
    var jb :| 0 <= jb < |b| && b[jb].createdAt == Newest(b);
    assert Newest(a) >= a[jb].createdAt && Newest(b) >= b[ja].createdAt;
  }
}
