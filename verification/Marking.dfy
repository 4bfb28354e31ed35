// Which pages markUsedArea marks, and when those are the pages it was asked to mark.

module Marking {
  import opened Words

  /** Pass i of the loop marks this page. */
  function MarkedAt(arr: nat, offset: nat, i: nat): nat { (arr + i / 8) * 8 + (arr + i + offset) % 8 }

  ghost predicate Marked(arr: nat, offset: nat, length: nat, p: nat) {
    exists i :: 0 <= i < length && MarkedAt(arr, offset, i) == p
  }

  predicate Asked(arr: nat, offset: nat, length: nat, p: nat) { arr * 8 + offset <= p < arr * 8 + offset + length }

  ghost predicate MarksAsked(arr: nat, offset: nat, length: nat) {
    forall p: nat :: Marked(arr, offset, length, p) <==> Asked(arr, offset, length, p)
  }

  /** Whole bytes from a byte boundary, or a range within a byte (or from its start) of a byte divisible by 8. */
  predicate Markable(arr: nat, offset: nat, length: nat) {
    || length == 0
    || (offset == 0 && length % 8 == 0)
    || (arr % 8 == 0 && (offset == 0 || offset + length <= 8))
  }

  /** When, among eight passes, this bit of the byte is marked. */
  function Rank(arr: nat, offset: nat, bit: nat): nat
    requires offset < 8 && bit < 8
  {
    (bit + 16 - arr % 8 - offset) % 8
  }

  /** Page p is marked iff its byte is a whole one, or its bit lies in the rotated last part. */
  lemma MarkedIs(arr: nat, offset: nat, length: nat, p: nat)
    requires offset < 8
    ensures Marked(arr, offset, length, p) <==>
              arr <= p / 8 && (p / 8 - arr) * 8 + Rank(arr, offset, p % 8) < length
  {
    var b := p / 8 - arr;
    var r := Rank(arr, offset, p % 8);
    if b >= 0 {
      Rotated(arr, offset, b, p % 8);
      if 8 * b + r < length {
        assert MarkedAt(arr, offset, 8 * b + r) == p;
      }
    }
    if i :| 0 <= i < length && MarkedAt(arr, offset, i) == p {
      Rotation(arr, offset, i, p);
    }
  }

  lemma Rotated(arr: nat, offset: nat, b: nat, bit: nat)
    requires offset < 8 && bit < 8
    ensures var r := Rank(arr, offset, bit);
            MarkedAt(arr, offset, 8 * b + r) == (arr + b) * 8 + bit
  {
    var r := Rank(arr, offset, bit);
    var q := (bit + 16 - arr % 8 - offset) / 8;
    Remainder(arr + (8 * b + r) + offset, 8, arr / 8 + b + 2 - q, bit);
  }

  lemma Rotation(arr: nat, offset: nat, i: nat, p: nat)
    requires offset < 8 && MarkedAt(arr, offset, i) == p
    ensures p / 8 == arr + i / 8 && Rank(arr, offset, p % 8) == i % 8
  {
    var t := (arr + i + offset) / 8;
    Remainder(p, 8, arr + i / 8, (arr + i + offset) % 8);
    Remainder(p % 8 + 16 - arr % 8 - offset, 8, i / 8 + 2 + arr / 8 - t, i % 8);
  }

  /** Exactly when the marked pages are those asked for. */
  lemma MarkingExact(arr: nat, offset: nat, length: nat)
    requires offset < 8
    ensures MarksAsked(arr, offset, length) <==> Markable(arr, offset, length)
  {
    if Markable(arr, offset, length) {
      forall p: nat ensures Marked(arr, offset, length, p) <==> Asked(arr, offset, length, p) {
        MarkedIs(arr, offset, length, p);
        MarkableRight(arr, offset, length, p);
      }
    } else {
      var p := Witness(arr, offset, length);
      MarkedIs(arr, offset, length, p);
      WitnessWrong(arr, offset, length);
    }
  }

  lemma MarkableRight(arr: nat, offset: nat, length: nat, p: nat)
    requires offset < 8 && Markable(arr, offset, length)
    ensures arr <= p / 8 && (p / 8 - arr) * 8 + Rank(arr, offset, p % 8) < length
            <==> Asked(arr, offset, length, p)
  {
  }

  /** A page marked wrongly or left out. */
  function Witness(arr: nat, offset: nat, length: nat): nat {
    if offset > 0 && length >= 8 then arr * 8
    else if offset > 0 && offset + length > 8 then (arr + 1) * 8
    else
      var turn := arr % 8;
      (arr + length / 8) * 8 + (if turn >= length % 8 then (offset + turn) % 8
          else if turn > 0 then offset + turn - 1 else 0)
  }

  lemma WitnessWrong(arr: nat, offset: nat, length: nat)
    requires offset < 8 && !Markable(arr, offset, length)
    ensures var p := Witness(arr, offset, length);
            (arr <= p / 8 && (p / 8 - arr) * 8 + Rank(arr, offset, p % 8) < length)
            <==> !Asked(arr, offset, length, p)
  {
    if offset > 0 && length >= 8 {
    } else if offset > 0 && offset + length > 8 {
    } else {
      RankWrong(arr, offset, length / 8, length % 8);
    }
  }

  /** The last part of a range that starts a byte, or stays in one, in a byte not divisible by 8. */
  lemma RankWrong(arr: nat, offset: nat, bytes: nat, last: nat)
    requires offset < 8 && 0 < last < 8 && arr % 8 > 0 && offset + last <= 8
    requires bytes == 0 || offset == 0
    ensures var p := Witness(arr, offset, bytes * 8 + last);
            && p / 8 == arr + bytes
            && (Rank(arr, offset, p % 8) < last <==> !Asked(arr, offset, bytes * 8 + last, p))
  {
  }
}
