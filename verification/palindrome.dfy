/**
 * task2's palindrome check: two indices walk towards each other over the
 * bytes of a sentence, skipping bytes that are not letters and comparing
 * the letters they meet, exactly and case-sensitively.
 */
module Palindrome {
  import opened Bytes

  /**
   * `unicode.IsLetter` of a byte converted to a rune: the rune is the code
   * point 0..255, so the letters are those of the Latin-1 block.
   */
  predicate IsLetter(b: Byte) {
    || 65 <= b <= 90 || 97 <= b <= 122
    || b == 0xAA || b == 0xB5 || b == 0xBA
    || 0xC0 <= b <= 0xD6 || 0xD8 <= b <= 0xF6 || 0xF8 <= b
  }

  /** The letter bytes of `s`, in order. */
  function Letters(s: seq<Byte>): (r: seq<Byte>)
    ensures |r| <= |s|
  {
    if |s| == 0 then [] else (if IsLetter(s[0]) then [s[0]] else []) + Letters(s[1..])
  }

  /** `s` read backwards. */
  function Reverse<T>(s: seq<T>): (r: seq<T>)
    ensures |r| == |s|
  {
    seq(|s|, i requires 0 <= i < |s| => s[|s| - 1 - i])
  }

  /** The reference meaning of the check: the letters read the same both ways. */
  predicate Palindromic(s: seq<Byte>) {
    Letters(s) == Reverse(Letters(s))
  }

  /** Position-wise symmetry, the form the two indices test. */
  predicate Mirrored<T(==)>(s: seq<T>) {
    forall i :: 0 <= i < |s| ==> s[i] == s[|s| - 1 - i]
  }

  lemma MirroredIsReversed<T>(s: seq<T>)
    ensures Mirrored(s) <==> s == Reverse(s)
  {
    var r := Reverse(s);
    if Mirrored(s) {
      assert forall i :: 0 <= i < |s| ==> r[i] == s[i];
    }
    if s == r {
      forall i | 0 <= i < |s| ensures s[i] == s[|s| - 1 - i] {
        assert r[i] == s[|s| - 1 - i];
      }
    }
  }

  lemma {:induction false} LettersAppend(a: seq<Byte>, b: seq<Byte>)
    ensures Letters(a + b) == Letters(a) + Letters(b)
  {
    if |a| == 0 {
      assert a + b == b;
    } else {
      var head := if IsLetter(a[0]) then [a[0]] else [];
      assert (a + b)[0] == a[0] && (a + b)[1..] == a[1..] + b;
      assert Letters(a + b) == head + Letters(a[1..] + b);
      LettersAppend(a[1..], b);
      assert Letters(a) == head + Letters(a[1..]);
    }
  }

  /** A sequence framed by `x` and `y` is symmetric exactly when `x == y` and the middle is. */
  lemma MirroredFrame<T>(x: T, m: seq<T>, y: T)
    ensures Mirrored([x] + m + [y]) <==> x == y && Mirrored(m)
  {
    var s := [x] + m + [y];
    if Mirrored(s) {
      assert s[0] == s[|s| - 1];
      forall i | 0 <= i < |m| ensures m[i] == m[|m| - 1 - i] {
        assert s[i + 1] == s[|s| - 1 - (i + 1)];
      }
    }
    if x == y && Mirrored(m) {
      forall i | 0 <= i < |s| ensures s[i] == s[|s| - 1 - i] {
        if 0 < i < |s| - 1 {
          assert s[i] == m[i - 1] && s[|s| - 1 - i] == m[|m| - 1 - (i - 1)];
        }
      }
    }
  }

  /** The letters of a window whose two ends are letters: both ends and the letters between. */
  lemma WindowLetters(s: seq<Byte>, left: int, right: int)
    requires 0 <= left < right < |s|
    requires IsLetter(s[left]) && IsLetter(s[right])
    ensures Letters(s[left..right + 1]) == [s[left]] + Letters(s[left + 1..right]) + [s[right]]
  {
    assert s[left..right + 1] == [s[left]] + (s[left + 1..right] + [s[right]]);
    LettersAppend(s[left + 1..right], [s[right]]);
  }

  /** Two letters at the ends of the window: it is symmetric exactly when they agree and the inside is. */
  lemma MatchStep(s: seq<Byte>, left: int, right: int)
    requires 0 <= left < right < |s|
    requires IsLetter(s[left]) && IsLetter(s[right])
    ensures Mirrored(Letters(s[left..right + 1])) <==> s[left] == s[right] && Mirrored(Letters(s[left + 1..right]))
  {
    WindowLetters(s, left, right);
    MirroredFrame(s[left], Letters(s[left + 1..right]), s[right]);
  }

  /** Dropping a non-letter at the left end of a window keeps its letters. */
  lemma DropLeft(s: seq<Byte>, left: int, right: int)
    requires 0 <= left <= right < |s| && !IsLetter(s[left])
    ensures Letters(s[left..right + 1]) == Letters(s[left + 1..right + 1])
  {
    assert s[left..right + 1][1..] == s[left + 1..right + 1];
  }

  /** Dropping a non-letter at the right end of a window keeps its letters. */
  lemma DropRight(s: seq<Byte>, left: int, right: int)
    requires 0 <= left <= right < |s| && !IsLetter(s[right])
    ensures Letters(s[left..right + 1]) == Letters(s[left..right])
  {
    assert s[left..right + 1] == s[left..right] + [s[right]];
    LettersAppend(s[left..right], [s[right]]);
  }

  /** A window of at most one byte is symmetric. */
  lemma ShortWindow(s: seq<Byte>, left: int, right: int)
    requires 0 <= left <= right + 1 <= |s| && left >= right
    ensures Mirrored(Letters(s[left..right + 1]))
  {
  }

  /**
   * `isPalindorme`: true exactly when the letter bytes of `s` equal their
   * reverse. The indices stop when they meet or cross, so the empty and the
   * one-byte sentences are palindromes without any comparison.
   */
  method IsPalindrome(s: seq<Byte>) returns (r: bool)
    ensures r <==> Palindromic(s)
  {
    MirroredIsReversed(Letters(s));
    var left := 0;
    var right := |s| - 1;
    assert s[left..right + 1] == s;
    while true
      invariant 0 <= left <= right + 1 <= |s|
      invariant Palindromic(s) <==> Mirrored(Letters(s[left..right + 1]))
      decreases right + 1 - left
    {
      if left >= right {
        ShortWindow(s, left, right);
        return true;
      }
      if IsLetter(s[left]) && IsLetter(s[right]) {
        MatchStep(s, left, right);
        if s[right] != s[left] {
          return false;
        }
        left := left + 1;
        right := right - 1;
      } else if !IsLetter(s[left]) {
        DropLeft(s, left, right);
        left := left + 1;
      } else {
        DropRight(s, left, right);
        right := right - 1;
      }
    }
  }

  /** No sentence shorter than two bytes is refused. */
  lemma ShortSentencesArePalindromes(s: seq<Byte>)
    requires |s| <= 1
    ensures Palindromic(s)
  {
    MirroredIsReversed(Letters(s));
  }

  /** Case matters: "Ab" is not a palindrome. */
  lemma CaseSensitive()
    ensures !Palindromic([65, 98])
  {
    var s: seq<Byte> := [65, 98];
    assert Letters(s) == s;
    assert Reverse(s)[0] == 98;
  }

  /** A byte that is not a letter can be inserted anywhere without changing the answer. */
  lemma NonLettersIgnored(a: seq<Byte>, c: Byte, b: seq<Byte>)
    requires !IsLetter(c)
    ensures Palindromic(a + [c] + b) <==> Palindromic(a + b)
  {
    LettersAppend(a + [c], b);
    LettersAppend(a, [c]);
    LettersAppend(a, b);
    assert Letters([c]) == [];
    assert Letters(a + [c]) == Letters(a);
  }

  /** "a, b-a" is a palindrome: the comma, the space and the hyphen are skipped. */
  lemma PunctuatedPalindrome()
    ensures Palindromic([97, 44, 32, 98, 45, 97])
  {
    var s: seq<Byte> := [97, 44, 32, 98, 45, 97];
    assert Letters(s) == [97, 98, 97];
    MirroredIsReversed(Letters(s));
  }
}
