/**
 * The token format: a 16-character raw part, the separator '#', and a 10-character
 * signature. The raw-part alphabet is the one generation draws from, and it contains
 * the separator itself.
 */
module CardFormat {
  import opened Wrappers
  import opened Signer

  const Separator: char := '#'

  /** Length of a raw part. */
  const RawLength: nat := 16

  /** Length of a whole well-shaped token: raw part, separator, signature. */
  const CardLength: nat := RawLength + 1 + SignatureLength

  /** The alphabet of raw parts; note that it holds the separator. */
  const Charset: string := "ABCDEFGHJKLMNPQRSTUVWXYZ23456789!@#$%^&*"

  /** A raw part generation can produce: 16 characters, each from Charset. */
  predicate IsRawPart(raw: string) {
    |raw| == RawLength && forall i :: 0 <= i < |raw| ==> raw[i] in Charset
  }

  /** The token shown to users for a raw part and its signature. */
  function CardId(raw: string, signature: string): string {
    raw + [Separator] + signature
  }

  /**
   * Splitting at the first occurrence of sep, as str.split(sep, 1) does when sep
   * occurs; None when it does not occur.
   */
  function SplitAtFirst(s: string, sep: char): (r: Option<(string, string)>)
    ensures r.None? <==> sep !in s
    ensures r.Some? ==> s == r.value.0 + [sep] + r.value.1 && sep !in r.value.0
  {
    if |s| == 0 then None
    else if s[0] == sep then Some(([], s[1..]))
    else
      match SplitAtFirst(s[1..], sep)
      case None => None
      case Some(parts) =>
        assert s == [s[0]] + s[1..];
        Some(([s[0]] + parts.0, parts.1))
  }

  /**
   * A string has at most one decomposition into a left part free of sep, sep, and
   * the rest: the split is determined by the first sep.
   */
  lemma FirstSeparatorUnique(l1: string, r1: string, l2: string, r2: string, sep: char)
    requires l1 + [sep] + r1 == l2 + [sep] + r2
    requires sep !in l1 && sep !in l2
    ensures l1 == l2 && r1 == r2
  {
    var s := l1 + [sep] + r1;
    assert s[|l1|] == sep && s[|l2|] == sep;
    SeparatorNotBefore(l1, r1, sep, |l2|);
    SeparatorNotBefore(l2, r2, sep, |l1|);
    assert l1 == s[..|l1|] == l2;
    assert r1 == s[|l1| + 1..] == r2;
  }

  /** In l + [sep] + r with sep not in l, the first sep sits at index |l|. */
  lemma SeparatorNotBefore(l: string, r: string, sep: char, k: nat)
    requires sep !in l && k < |l + [sep] + r| && (l + [sep] + r)[k] == sep
    ensures |l| <= k
  {
  }

  /** A token is split back into its raw part and signature when the raw part has no separator. */
  lemma SplitCardId(raw: string, signature: string)
    requires Separator !in raw
    ensures SplitAtFirst(CardId(raw, signature), Separator) == Some((raw, signature))
  {
    var parts := SplitAtFirst(CardId(raw, signature), Separator).value;
    FirstSeparatorUnique(parts.0, parts.1, raw, signature, Separator);
  }

  /**
   * When the raw part contains the separator, the split stops inside it: the left
   * part is strictly shorter than the raw part.
   */
  lemma SplitInsideRawPart(raw: string, signature: string)
    requires Separator in raw
    ensures SplitAtFirst(CardId(raw, signature), Separator).Some?
    ensures |SplitAtFirst(CardId(raw, signature), Separator).value.0| < |raw|
  {
    var s := CardId(raw, signature);
    var parts := SplitAtFirst(s, Separator).value;
    var k :| 0 <= k < |raw| && raw[k] == Separator;
    assert s[k] == raw[k];
    SeparatorNotBefore(parts.0, parts.1, Separator, k);
  }

  /**
   * Well-shaped: the split at the first separator yields a 16-character left part
   * and a 10-character right part, stated by position rather than by splitting.
   */
  predicate WellShaped(card: string) {
    |card| == CardLength && card[RawLength] == Separator && Separator !in card[..RawLength]
  }

  /** The split passes the length check exactly for well-shaped tokens. */
  lemma SplitLengthsIffWellShaped(card: string)
    requires Separator in card
    ensures SplitAtFirst(card, Separator).Some?
    ensures var parts := SplitAtFirst(card, Separator).value;
      (|parts.0| == RawLength && |parts.1| == SignatureLength) <==> WellShaped(card)
    ensures WellShaped(card) ==>
      SplitAtFirst(card, Separator).value == (card[..RawLength], card[RawLength + 1..])
  {
    var parts := SplitAtFirst(card, Separator).value;
    if WellShaped(card) {
      assert card == card[..RawLength] + [Separator] + card[RawLength + 1..];
      FirstSeparatorUnique(parts.0, parts.1, card[..RawLength], card[RawLength + 1..], Separator);
    }
    if |parts.0| == RawLength && |parts.1| == SignatureLength {
      assert card[RawLength] == Separator;
      assert card[..RawLength] == parts.0;
    }
  }
}
