/** Small stand-alone helpers: a power-of-two test on book ids, title reversal,
    title repetition and the listing of odd book ids. A C# `null` string is `None`. */
module LibraryWarmups {
  import opened Collections

  // ---------------------------------------------------------------------------
  // IsPowerOfTwo
  // ---------------------------------------------------------------------------

  /** 2 raised to `k`. */
  function Pow2(k: nat): (p: nat)
    ensures p >= 1
  {
    if k == 0 then 1 else 2 * Pow2(k - 1)
  }

  /** Bitwise AND of two non-negative numbers, one binary digit at a time; it
      never exceeds either operand. */
  function BitAnd(a: nat, b: nat): (r: nat)
    ensures r <= a && r <= b
  {
    if a == 0 || b == 0 then 0
    else 2 * BitAnd(a / 2, b / 2) + (if a % 2 == 1 && b % 2 == 1 then 1 else 0)
  }

  /** A number ANDed with itself is unchanged. */
  lemma {:induction false} BitAndSelf(a: nat)
    ensures BitAnd(a, a) == a
  {
    if a != 0 {
      BitAndSelf(a / 2);
    }
  }

  /** `n` is one, or an even number whose half is a power of two. */
  predicate PowerOfTwo(n: nat) {
    n == 1 || (n > 1 && n % 2 == 0 && PowerOfTwo(n / 2))
  }

  /** The recursive test agrees with "some power of 2 equals n". */
  lemma {:induction false} PowerOfTwoIsPow2(n: nat)
    ensures PowerOfTwo(n) <==> exists k: nat :: Pow2(k) == n
  {
    if PowerOfTwo(n) {
      if n != 1 {
        PowerOfTwoIsPow2(n / 2);
        var k: nat :| Pow2(k) == n / 2;
        assert Pow2(k + 1) == n;
      } else {
        assert Pow2(0) == n;
      }
    }
    if k: nat :| Pow2(k) == n {
      Pow2IsPowerOfTwo(k);
    }
  }

  lemma {:induction false} Pow2IsPowerOfTwo(k: nat)
    ensures PowerOfTwo(Pow2(k))
  {
    if k > 0 {
      Pow2IsPowerOfTwo(k - 1);
      assert Pow2(k) / 2 == Pow2(k - 1);
    }
  }

  /** For positive `n`, `n & (n - 1)` clears the lowest set bit: the result is zero
      exactly when that bit was the only one. */
  lemma {:induction false} ClearLowestBit(n: nat)
    requires n > 0
    ensures BitAnd(n, n - 1) == 0 <==> PowerOfTwo(n)
  {
    if n > 1 {
      var m := n / 2;
      if n % 2 == 0 {
        assert (n - 1) / 2 == m - 1 && (n - 1) % 2 == 1;
        ClearLowestBit(m);
      } else {
        assert (n - 1) / 2 == m && (n - 1) % 2 == 0;
        BitAndSelf(m);
      }
    }
  }

  /** `bookId > 0 && (bookId & (bookId - 1)) == 0`: true exactly for the powers of two. */
  function IsPowerOfTwo(bookId: int): (r: bool)
    ensures r <==> bookId > 0 && exists k: nat :: Pow2(k) == bookId
  {
    if bookId > 0 then
      ClearLowestBit(bookId);
      PowerOfTwoIsPow2(bookId);
      BitAnd(bookId, bookId - 1) == 0
    else false
  }

  lemma IsPowerOfTwoExamples()
    ensures IsPowerOfTwo(1) && IsPowerOfTwo(2) && IsPowerOfTwo(4) && IsPowerOfTwo(16)
    ensures !IsPowerOfTwo(3) && !IsPowerOfTwo(0) && !IsPowerOfTwo(-2) && !IsPowerOfTwo(18)
  {
  }

  // ---------------------------------------------------------------------------
  // ReverseTitle
  // ---------------------------------------------------------------------------

  /** The characters of `s` in the opposite order. */
  function Reverse(s: string): (r: string)
    ensures |r| == |s|
  {
    if s == [] then [] else Reverse(s[1..]) + [s[0]]
  }

  /** Position `i` of the reversal holds position `|s| - 1 - i` of the original. */
  lemma {:induction false} ReverseAt(s: string)
    ensures forall i :: 0 <= i < |s| ==> Reverse(s)[i] == s[|s| - 1 - i]
  {
    if s != [] {
      ReverseAt(s[1..]);
    }
  }

  /** Reversing twice gives the title back. */
  lemma ReverseInvolution(s: string)
    ensures Reverse(Reverse(s)) == s
  {
    ReverseAt(s);
    ReverseAt(Reverse(s));
  }

  /** Builds the reversal by appending characters from the last to the first;
      `null` stays `null`. */
  method ReverseTitle(title: Option<string>) returns (r: Option<string>)
    ensures title.None? ==> r.None?
    ensures title.Some? ==> r == Some(Reverse(title.value))
  {
    if title.None? {
      return None;
    }
    var t := title.value;
    var reversed := "";
    var i := |t| - 1;
    while i >= 0
      invariant -1 <= i < |t|
      invariant |reversed| == |t| - 1 - i
      invariant forall k :: 0 <= k < |reversed| ==> reversed[k] == t[|t| - 1 - k]
    {
      reversed := reversed + [t[i]];
      i := i - 1;
    }
    ReverseAt(t);
    assert reversed == Reverse(t);
    return Some(reversed);
  }

  lemma ReverseExamples()
    ensures Reverse("abc") == "cba" && Reverse("Book") == "kooB" && Reverse("") == ""
  {
  }

  // ---------------------------------------------------------------------------
  // GenerateReplicas
  // ---------------------------------------------------------------------------

  /** `n` copies of `t`, one after another. */
  function Repeat(t: string, n: nat): string {
    if n == 0 then [] else Repeat(t, n - 1) + t
  }

  lemma {:induction false} RepeatLength(t: string, n: nat)
    ensures |Repeat(t, n)| == n * |t|
  {
    if n > 0 {
      RepeatLength(t, n - 1);
    }
  }

  /** Copy `k` occupies positions `k * |t|` up to `(k + 1) * |t|` and holds `t`. */
  lemma {:induction false} RepeatAt(t: string, n: nat, k: nat, j: nat)
    requires k < n && j < |t|
    ensures k * |t| + j < |Repeat(t, n)|
    ensures Repeat(t, n)[k * |t| + j] == t[j]
  {
    RepeatLength(t, n - 1);
    RepeatLength(t, n);
    if k < n - 1 {
      RepeatAt(t, n - 1, k, j);
      assert (n - 1) * |t| == (k + 1) * |t| + (n - 2 - k) * |t|;
    } else {
      assert k * |t| == (n - 1) * |t|;
    }
  }

  /** The title repeated `count` times; the empty string when `count` is not
      positive or the title is `null` or empty. */
  method GenerateReplicas(title: Option<string>, count: int) returns (r: string)
    ensures count <= 0 || title.None? || title.value == "" ==> r == ""
    ensures count > 0 && title.Some? ==> r == Repeat(title.value, count)
  {
    if count <= 0 || title.None? || title.value == "" {
      if count > 0 && title.Some? {
        RepeatLength(title.value, count);
      }
      return "";
    }
    var result := "";
    for i := 0 to count
      invariant result == Repeat(title.value, i)
    {
      result := result + title.value;
    }
    return result;
  }

  lemma RepeatExamples()
    ensures Repeat("Book", 3) == "BookBookBook" && Repeat("A", 5) == "AAAAA"
  {
  }

  // ---------------------------------------------------------------------------
  // ListOddBookIds
  // ---------------------------------------------------------------------------

  /** The odd numbers from 1 to 100 in increasing order, which the source writes to
      the console one per line. */
  method ListOddBookIds() returns (emitted: seq<int>)
    ensures |emitted| == 50
    ensures forall k :: 0 <= k < |emitted| ==> emitted[k] == 2 * k + 1
    ensures forall n :: n in emitted <==> 1 <= n <= 100 && n % 2 == 1
  {
    emitted := [];
    var i := 1;
    while i <= 100
      invariant 1 <= i <= 101 && i % 2 == 1
      invariant |emitted| == (i - 1) / 2
      invariant forall k :: 0 <= k < |emitted| ==> emitted[k] == 2 * k + 1
    {
      emitted := emitted + [i];
      i := i + 2;
    }
    forall n | 1 <= n <= 100 && n % 2 == 1 ensures n in emitted {
      assert emitted[(n - 1) / 2] == n;
    }
  }
}
