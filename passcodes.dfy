/**
 * Passcodes, the stored-passcode list as an abstract sequence, and the
 * entry buffer as the sequence of digits typed so far
 * (Security_System.c, "Passcode related functionality").
 */
module Passcodes {

  const PASSCODE_LENGTH := 4
  const MAX_NUM_STORED_PASSCODES := 100

  /** The value 0xF marks an empty position, both in the entry buffer and in the store. */
  const BLANK_DIGIT := 0xF

  /** Every position holds the low four bits of a byte. */
  type Nibble = x: int | 0 <= x < 16

  /** A uint8_t. */
  type Byte = x: int | 0 <= x < 0x100

  /** A uint32_t, the width of a peripheral register. */
  type Word32 = x: int | 0 <= x < 0x1_0000_0000

  type Passcode = s: seq<Nibble> | |s| == PASSCODE_LENGTH witness [0xF, 0xF, 0xF, 0xF]

  const MASTER_PASSCODE: Passcode := [0, 0, 0, 0]
  const BLANK_PASSCODE: Passcode := [BLANK_DIGIT, BLANK_DIGIT, BLANK_DIGIT, BLANK_DIGIT]

  /** `x & 0xF`: on an unsigned value, masking the low four bits is the remainder modulo 16. */
  function LowNibble(x: Word32): (r: Nibble)
    ensures x < 16 ==> r == x
    ensures (x - r) % 16 == 0
  {
    x % 16
  }

  /** isMasterPasscode: position-wise comparison with the master passcode. */
  function IsMasterPasscode(p: Passcode): (r: bool)
    ensures r <==> p == MASTER_PASSCODE
  {
    p[0] == MASTER_PASSCODE[0] && p[1] == MASTER_PASSCODE[1] &&
    p[2] == MASTER_PASSCODE[2] && p[3] == MASTER_PASSCODE[3]
  }

  // ---------------------------------------------------------------------------
  // The occupied prefix of the store, as a sequence of passcodes

  ghost predicate Distinct(codes: seq<Passcode>) {
    forall i, j :: 0 <= i < j < |codes| ==> codes[i] != codes[j]
  }

  /**
   * What the authentication logic keeps true of the store: within capacity,
   * no passcode twice, and never the master passcode.
   */
  ghost predicate WellFormedStore(codes: seq<Passcode>) {
    |codes| <= MAX_NUM_STORED_PASSCODES && Distinct(codes) && MASTER_PASSCODE !in codes
  }

  /** The slot the search loop of removePasscode stops at. */
  function FirstIndex(codes: seq<Passcode>, p: Passcode): (k: nat)
    requires p in codes
    ensures k < |codes| && codes[k] == p
    ensures p !in codes[..k]
  {
    if codes[0] == p then 0
    else
      assert codes == [codes[0]] + codes[1..];
      var k := 1 + FirstIndex(codes[1..], p);
      assert codes[..k] == [codes[0]] + codes[1..][..k - 1];
      k
  }

  /** The first match is the only index with a match and none before it. */
  lemma {:induction false} FirstIndexUnique(codes: seq<Passcode>, p: Passcode, k: nat)
    requires k < |codes| && codes[k] == p && p !in codes[..k]
    ensures p in codes && FirstIndex(codes, p) == k
  {
    if k > 0 {
      assert codes[..k][0] == codes[0];
      assert codes[1..][..k - 1] == codes[..k][1..];
      FirstIndexUnique(codes[1..], p, k - 1);
    }
  }

  /** The store after deleting the first occurrence of `p` (unchanged if there is none). */
  function RemoveFirst(codes: seq<Passcode>, p: Passcode): (r: seq<Passcode>)
    ensures p !in codes ==> r == codes
    ensures p in codes ==> |r| == |codes| - 1
  {
    if codes == [] then []
    else if codes[0] == p then codes[1..]
    else [codes[0]] + RemoveFirst(codes[1..], p)
  }

  /** Removal takes out exactly one copy of `p`, if there is one, and nothing else. */
  lemma {:induction false} RemoveFirstMultiset(codes: seq<Passcode>, p: Passcode)
    ensures multiset(RemoveFirst(codes, p)) == multiset(codes) - multiset{p}
  {
    if codes != [] {
      assert codes == [codes[0]] + codes[1..];
      if codes[0] != p {
        RemoveFirstMultiset(codes[1..], p);
      }
    }
  }

  /** Deleting the first match splices it out: the survivors keep their order. */
  lemma {:induction false} RemoveFirstIsSplice(codes: seq<Passcode>, p: Passcode)
    requires p in codes
    ensures var k := FirstIndex(codes, p);
      RemoveFirst(codes, p) == codes[..k] + codes[k + 1..]
  {
    if codes[0] != p {
      var tail := codes[1..];
      assert codes == [codes[0]] + tail;
      assert p in tail;
      RemoveFirstIsSplice(tail, p);
      var k := FirstIndex(tail, p);
      assert FirstIndex(codes, p) == k + 1;
      assert RemoveFirst(codes, p) == [codes[0]] + RemoveFirst(tail, p);
      assert codes[..k + 1] == [codes[0]] + tail[..k];
      assert codes[k + 2..] == tail[k + 1..];
    }
  }

  /** Removal takes nothing but `p` out of the store. */
  lemma RemoveFirstSubset(codes: seq<Passcode>, p: Passcode, q: Passcode)
    requires q in RemoveFirst(codes, p)
    ensures q in codes
  {
    RemoveFirstMultiset(codes, p);
    assert q in multiset(RemoveFirst(codes, p));
  }

  /** In a store without duplicates, the removed passcode is gone afterwards. */
  lemma {:induction false} RemoveFirstAbsent(codes: seq<Passcode>, p: Passcode)
    requires Distinct(codes)
    ensures p !in RemoveFirst(codes, p)
  {
    if codes != [] {
      var tail := codes[1..];
      DistinctTail(codes);
      if codes[0] == p {
        forall j | 0 <= j < |tail| ensures tail[j] != p {
          assert tail[j] == codes[j + 1];
        }
      } else {
        RemoveFirstAbsent(tail, p);
      }
    }
  }

  lemma DistinctTail(codes: seq<Passcode>)
    requires Distinct(codes) && codes != []
    ensures Distinct(codes[1..])
  {
    var tail := codes[1..];
    forall i, j | 0 <= i < j < |tail| ensures tail[i] != tail[j] {
      assert tail[i] == codes[i + 1] && tail[j] == codes[j + 1];
    }
  }

  /** The head of a store without duplicates does not occur in its tail. */
  lemma HeadNotInTail(codes: seq<Passcode>)
    requires Distinct(codes) && codes != []
    ensures codes[0] !in codes[1..]
  {
    forall j | 0 <= j < |codes[1..]| ensures codes[1..][j] != codes[0] {
      assert codes[1..][j] == codes[j + 1];
    }
  }

  lemma ConsDistinct(a: Passcode, s: seq<Passcode>)
    requires Distinct(s) && a !in s
    ensures Distinct([a] + s)
  {
    var r := [a] + s;
    forall i, j | 0 <= i < j < |r| ensures r[i] != r[j] {
      assert r[j] == s[j - 1];
      if i > 0 {
        assert r[i] == s[i - 1];
      }
    }
  }

  /** Removal never introduces a duplicate. */
  lemma {:induction false} RemoveFirstDistinct(codes: seq<Passcode>, p: Passcode)
    requires Distinct(codes)
    ensures Distinct(RemoveFirst(codes, p))
  {
    if codes != [] {
      var tail := codes[1..];
      DistinctTail(codes);
      if codes[0] != p {
        RemoveFirstDistinct(tail, p);
        var rest := RemoveFirst(tail, p);
        HeadNotInTail(codes);
        forall x | x in rest ensures x != codes[0] {
          RemoveFirstSubset(tail, p, x);
        }
        ConsDistinct(codes[0], rest);
      }
    }
  }

  /** Every other passcode is kept, and `p` itself is gone. */
  lemma RemoveFirstMembers(codes: seq<Passcode>, p: Passcode, q: Passcode)
    requires Distinct(codes)
    ensures q in RemoveFirst(codes, p) <==> q in codes && q != p
  {
    var r := RemoveFirst(codes, p);
    RemoveFirstAbsent(codes, p);
    if q in r {
      RemoveFirstSubset(codes, p, q);
    }
    if q != p && q in codes {
      RemoveFirstMultiset(codes, p);
      assert q in multiset(codes) - multiset{p};
      assert q in multiset(r);
    }
  }

  /** Removal keeps the store well formed, and afterwards `p` is not in it. */
  lemma RemoveFirstKeepsWellFormed(codes: seq<Passcode>, p: Passcode)
    requires WellFormedStore(codes)
    ensures WellFormedStore(RemoveFirst(codes, p))
    ensures p !in RemoveFirst(codes, p)
  {
    RemoveFirstMembers(codes, p, MASTER_PASSCODE);
    RemoveFirstAbsent(codes, p);
    RemoveFirstDistinct(codes, p);
  }

  /** Appending a passcode that is new and not the master keeps the store well formed. */
  lemma AppendKeepsWellFormed(codes: seq<Passcode>, p: Passcode)
    requires WellFormedStore(codes)
    requires p !in codes && p != MASTER_PASSCODE && |codes| < MAX_NUM_STORED_PASSCODES
    ensures WellFormedStore(codes + [p])
  {
    var r := codes + [p];
    forall i, j | 0 <= i < j < |r| ensures r[i] != r[j] {
      if j == |codes| {
        assert r[i] == codes[i];
      } else {
        assert r[i] == codes[i] && r[j] == codes[j];
      }
    }
  }

  // ---------------------------------------------------------------------------
  // The entry buffer, as the digits typed so far

  /** storeCurrentPasscodeDigit on the typed prefix: a digit is dropped once four are held. */
  function Appended(typed: seq<Nibble>, digit: Nibble): (r: seq<Nibble>)
    ensures |typed| <= |r| <= |typed| + 1 && r[..|typed|] == typed
    ensures |typed| <= PASSCODE_LENGTH ==> |r| <= PASSCODE_LENGTH
  {
    if |typed| < PASSCODE_LENGTH then typed + [digit] else typed
  }

  /** The typed prefix after a run of keypresses with no reset in between. */
  function TypedAfter(typed: seq<Nibble>, digits: seq<Nibble>): seq<Nibble>
    decreases |digits|
  {
    if digits == [] then typed else TypedAfter(Appended(typed, digits[0]), digits[1..])
  }

  function Min(a: int, b: int): int { if a < b then a else b }

  /**
   * The buffer keeps the first digits that fit, in the order they were typed,
   * and ignores the rest: four digits complete an entry and a fifth changes nothing.
   */
  lemma {:induction false} TypedAfterKeepsFirstDigits(typed: seq<Nibble>, digits: seq<Nibble>)
    requires |typed| <= PASSCODE_LENGTH
    ensures var n := Min(|typed| + |digits|, PASSCODE_LENGTH);
      TypedAfter(typed, digits) == (typed + digits)[..n]
    decreases |digits|
  {
    if digits != [] {
      var rest := digits[1..];
      var next := Appended(typed, digits[0]);
      assert TypedAfter(typed, digits) == TypedAfter(next, rest);
      TypedAfterKeepsFirstDigits(next, rest);
      if |typed| < PASSCODE_LENGTH {
        assert next == typed + [digits[0]];
        assert next + rest == typed + digits;
        assert Min(|next| + |rest|, PASSCODE_LENGTH) == Min(|typed| + |digits|, PASSCODE_LENGTH);
      } else {
        assert next == typed && |typed| == PASSCODE_LENGTH;
        assert (typed + digits)[..PASSCODE_LENGTH] == typed;
        assert (typed + rest)[..PASSCODE_LENGTH] == typed;
      }
    }
  }

  // ---------------------------------------------------------------------------
  // Display encoding

  /**
   * displayPasscode packs the four positions into one 16-bit word, first
   * position in the top nibble: (p0 << 12) | (p1 << 8) | (p2 << 4) | p3. The
   * nibbles do not overlap, so the bitwise or is a sum.
   */
  function DisplayWord(p: Passcode): (w: nat)
    ensures w < 0x1_0000
  {
    (p[0] as int) * 0x1000 + (p[1] as int) * 0x100 + (p[2] as int) * 0x10 + p[3]
  }

  /** The four digits a display word shows: shift right by four bits at a time and keep the low nibble. */
  function DisplayedDigits(w: nat): (p: Passcode)
    requires w < 0x1_0000
  {
    var w1 := w / 0x10;
    var w2 := w1 / 0x10;
    [w2 / 0x10, w2 % 0x10, w1 % 0x10, w % 0x10]
  }

  lemma ShiftNibble(q: nat, r: Nibble)
    ensures (q * 0x10 + r) / 0x10 == q && (q * 0x10 + r) % 0x10 == r
  {
  }

  /** The display shows exactly the passcode it was sent. */
  lemma DisplayRoundTrip(p: Passcode)
    ensures DisplayedDigits(DisplayWord(p)) == p
  {
    var w2 := (p[0] as int) * 0x10 + p[1];
    var w1 := w2 * 0x10 + p[2];
    assert DisplayWord(p) == w1 * 0x10 + p[3];
    ShiftNibble(w1, p[3]);
    ShiftNibble(w2, p[2]);
    ShiftNibble(p[0], p[1]);
  }
}
