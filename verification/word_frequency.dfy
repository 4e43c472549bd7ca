/**
 * golang/task2's word statistics: a sentence is cut at every space byte,
 * each piece keeps only its ASCII letters, empty pieces are dropped, and
 * the frequency counter counts the words that remain.
 */
module WordFrequency {
  import opened Bytes
  import Lists

  predicate IsAsciiLetter(b: Byte) {
    65 <= b <= 90 || 97 <= b <= 122
  }

  /** The ASCII letters of `s`, in order; every other byte is dropped. */
  function KeepLetters(s: seq<Byte>): seq<Byte> {
    if |s| == 0 then [] else (if IsAsciiLetter(s[0]) then [s[0]] else []) + KeepLetters(s[1..])
  }

  /** The pieces of `s` between space bytes, empty pieces included. */
  function Fields(s: seq<Byte>): (f: seq<seq<Byte>>)
    ensures |f| >= 1
  {
    if |s| == 0 then [[]]
    else
      var rest := Fields(s[1..]);
      if s[0] == Space then [[]] + rest else [[s[0]] + rest[0]] + rest[1..]
  }

  /** The word one piece contributes: its letters, or nothing when it has none. */
  function Piece(field: seq<Byte>): seq<seq<Byte>> {
    var w := KeepLetters(field);
    if w == [] then [] else [w]
  }

  /** The words of the pieces `f`, in order. */
  function Clean(f: seq<seq<Byte>>): seq<seq<Byte>> {
    if |f| == 0 then [] else Piece(f[0]) + Clean(f[1..])
  }

  /**
   * The reference meaning of the extractor: cut at spaces, keep the letters
   * of each piece, drop the pieces left empty. Every word is non-empty and
   * made of ASCII letters only.
   */
  function Words(s: seq<Byte>): seq<seq<Byte>> {
    Clean(Fields(s))
  }

  /** What the pieces' words are made of: letters, at least one. */
  predicate LetterWords(ws: seq<seq<Byte>>) {
    forall i :: 0 <= i < |ws| ==> ws[i] != [] && forall j :: 0 <= j < |ws[i]| ==> IsAsciiLetter(ws[i][j])
  }

  lemma {:induction false} KeepLettersAreLetters(s: seq<Byte>)
    ensures forall i :: 0 <= i < |KeepLetters(s)| ==> IsAsciiLetter(KeepLetters(s)[i])
  {
    if |s| > 0 {
      KeepLettersAreLetters(s[1..]);
    }
  }

  lemma {:induction false} CleanGivesLetterWords(f: seq<seq<Byte>>)
    ensures LetterWords(Clean(f))
  {
    if |f| > 0 {
      CleanGivesLetterWords(f[1..]);
      KeepLettersAreLetters(f[0]);
      var r := Clean(f);
      assert r == Piece(f[0]) + Clean(f[1..]);
    }
  }

  /** No word is empty and every word is made of ASCII letters only. */
  lemma WordsAreLetterWords(s: seq<Byte>)
    ensures LetterWords(Words(s))
  {
    CleanGivesLetterWords(Fields(s));
  }

  /** The words concatenated, in order. */
  function Flatten(ws: seq<seq<Byte>>): seq<Byte> {
    if |ws| == 0 then [] else ws[0] + Flatten(ws[1..])
  }

  lemma {:induction false} KeepLettersAppend(a: seq<Byte>, b: seq<Byte>)
    ensures KeepLetters(a + b) == KeepLetters(a) + KeepLetters(b)
  {
    if |a| == 0 {
      assert a + b == b;
    } else {
      var head := if IsAsciiLetter(a[0]) then [a[0]] else [];
      assert (a + b)[0] == a[0] && (a + b)[1..] == a[1..] + b;
      assert KeepLetters(a + b) == head + KeepLetters(a[1..] + b);
      KeepLettersAppend(a[1..], b);
      assert KeepLetters(a) == head + KeepLetters(a[1..]);
    }
  }

  lemma {:induction false} FlattenAppend(a: seq<seq<Byte>>, b: seq<seq<Byte>>)
    ensures Flatten(a + b) == Flatten(a) + Flatten(b)
  {
    if |a| == 0 {
      assert a + b == b;
    } else {
      assert (a + b)[0] == a[0] && (a + b)[1..] == a[1..] + b;
      assert Flatten(a + b) == a[0] + Flatten(a[1..] + b);
      FlattenAppend(a[1..], b);
    }
  }

  lemma {:induction false} CleanAppend(a: seq<seq<Byte>>, b: seq<seq<Byte>>)
    ensures Clean(a + b) == Clean(a) + Clean(b)
  {
    if |a| == 0 {
      assert a + b == b;
    } else {
      assert (a + b)[0] == a[0] && (a + b)[1..] == a[1..] + b;
      assert Clean(a + b) == Piece(a[0]) + Clean(a[1..] + b);
      CleanAppend(a[1..], b);
    }
  }

  /** Extending the first piece of `g + h` extends the first piece of `g`. */
  lemma PrependToFirst<T>(x: T, g: seq<seq<T>>, h: seq<seq<T>>)
    requires |g| >= 1
    ensures [[x] + (g + h)[0]] + (g + h)[1..] == ([[x] + g[0]] + g[1..]) + h
  {
    assert (g + h)[1..] == g[1..] + h;
  }

  /** A space cuts the pieces in two. */
  lemma {:induction false} FieldsAtSpace(a: seq<Byte>, b: seq<Byte>)
    ensures Fields(a + [Space] + b) == Fields(a) + Fields(b)
  {
    if |a| == 0 {
      assert a + [Space] + b == [Space] + b;
      assert ([Space] + b)[1..] == b;
    } else {
      var s := a + [Space] + b;
      assert s[0] == a[0] && s[1..] == a[1..] + [Space] + b;
      FieldsAtSpace(a[1..], b);
      if a[0] != Space {
        PrependToFirst(a[0], Fields(a[1..]), Fields(b));
      }
    }
  }

  /** A space-free piece is one field. */
  lemma {:induction false} FieldsOfField(w: seq<Byte>)
    requires Space !in w
    ensures Fields(w) == [w]
  {
    if |w| > 0 {
      assert Space !in w[1..];
      FieldsOfField(w[1..]);
      assert [w[0]] + w[1..] == w;
    }
  }

  /** Only the space byte separates words: the words of `a`, then those of `b`. */
  lemma WordsAtSpace(a: seq<Byte>, b: seq<Byte>)
    ensures Words(a + [Space] + b) == Words(a) + Words(b)
  {
    FieldsAtSpace(a, b);
    CleanAppend(Fields(a), Fields(b));
  }

  /** A space-free piece, with or without a closing space, yields its letters as one word or nothing. */
  lemma WordsOfField(w: seq<Byte>)
    requires Space !in w
    ensures Words(w) == Piece(w)
    ensures Words(w + [Space]) == Piece(w)
  {
    FieldsOfField(w);
    assert Clean([w]) == Piece(w) + Clean([]);
    WordsAtSpace(w, []);
    assert w + [Space] + [] == w + [Space];
    assert Words([]) == [];
  }

  /** Letters are kept across a space exactly when they are kept on both sides of it. */
  lemma FlattenAtSpace(a: seq<Byte>, b: seq<Byte>)
    requires Flatten(Words(a)) == KeepLetters(a)
    requires Flatten(Words(b)) == KeepLetters(b)
    ensures Flatten(Words(a + [Space] + b)) == KeepLetters(a + [Space] + b)
  {
    WordsAtSpace(a, b);
    FlattenAppend(Words(a), Words(b));
    KeepLettersAppend(a + [Space], b);
    KeepLettersAppend(a, [Space]);
    assert KeepLetters([Space]) == [];
    assert KeepLetters(a + [Space]) == KeepLetters(a);
  }

  /** Concatenating the words gives back every ASCII letter of the sentence, in order. */
  lemma {:induction false} FlattenWords(s: seq<Byte>)
    ensures Flatten(Words(s)) == KeepLetters(s)
    decreases |s|
  {
    if Space in s {
      var i :| 0 <= i < |s| && s[i] == Space;
      assert s == s[..i] + [Space] + s[i + 1..];
      FlattenWords(s[..i]);
      FlattenWords(s[i + 1..]);
      FlattenAtSpace(s[..i], s[i + 1..]);
    } else {
      WordsOfField(s);
      if KeepLetters(s) != [] {
        assert Flatten([KeepLetters(s)]) == KeepLetters(s) + Flatten([]);
      }
    }
  }

  /** The bytes one pass consumes yield the piece's word, if any. */
  lemma PassWords(s: seq<Byte>, left: int, end: int, right: int)
    requires 0 <= left <= end <= |s|
    requires Space !in s[left..end]
    requires (right == end == |s|) || (right == end + 1 <= |s| && s[end] == Space)
    ensures Words(s[left..right]) == Piece(s[left..end])
  {
    var w := s[left..end];
    WordsOfField(w);
    if right == end {
      assert s[left..right] == w;
    } else {
      assert s[left..right] == w + [Space];
    }
  }

  /** Cutting just after a space: the words before the cut, then those after it. */
  lemma WordsAfterSpace(prior: seq<Byte>, tail: seq<Byte>)
    ensures Words(prior + [Space] + tail) == Words(prior + [Space]) + Words(tail)
  {
    WordsAtSpace(prior, tail);
    WordsAtSpace(prior, []);
    assert prior + [Space] + [] == prior + [Space];
    assert Words([]) == [];
  }

  /** The first pass: the words read so far are those of its piece. */
  lemma FirstPass(s: seq<Byte>, right: int, piece: seq<seq<Byte>>)
    requires 0 <= right <= |s|
    requires Words(s[0..right]) == piece
    ensures Words(s[..right]) == Words(s[..0]) + piece
  {
    assert s[..right] == s[0..right];
    assert s[..0] == [];
    assert Words([]) == [];
  }

  /** A later pass, starting just after a space: its piece's words follow those read so far. */
  lemma LaterPass(s: seq<Byte>, left: int, right: int, piece: seq<seq<Byte>>)
    requires 0 < left <= right <= |s| && s[left - 1] == Space
    requires Words(s[left..right]) == piece
    ensures Words(s[..right]) == Words(s[..left]) + piece
  {
    var prior := s[..left - 1];
    var tail := s[left..right];
    assert s[..left] == prior + [Space];
    assert s[..right] == prior + [Space] + tail;
    WordsAfterSpace(prior, tail);
  }

  /** One pass of the outer loop: the piece from `left` up to `end`, closed by a space or by the end of input. */
  lemma WordsStep(s: seq<Byte>, left: int, end: int, right: int)
    requires 0 <= left <= end <= |s|
    requires left == 0 || s[left - 1] == Space
    requires Space !in s[left..end]
    requires (right == end == |s|) || (right == end + 1 <= |s| && s[end] == Space)
    ensures Words(s[..right]) == Words(s[..left]) + Piece(s[left..end])
  {
    PassWords(s, left, end, right);
    if left == 0 {
      FirstPass(s, right, Piece(s[left..end]));
    } else {
      LaterPass(s, left, right, Piece(s[left..end]));
    }
  }

  /**
   * The inner loop of `extractWords`: from `left`, gather the ASCII letters
   * up to the next space, which is consumed, or the end of the sentence.
   * The piece read is `s[left..end]`; `right` is where the next one starts.
   */
  method ReadPiece(s: seq<Byte>, left: int) returns (cur: seq<Byte>, right: int, ghost end: int)
    requires 0 <= left < |s|
    ensures left < right <= |s| && left <= end <= |s|
    ensures Space !in s[left..end]
    ensures cur == KeepLetters(s[left..end])
    ensures (right == end == |s|) || (right == end + 1 && s[end] == Space)
  {
    cur := [];
    right := left;
    end := left;
    while right < |s|
      invariant left <= end <= right <= |s|
      invariant end == right
      invariant Space !in s[left..end]
      invariant cur == KeepLetters(s[left..end])
      decreases |s| - right
    {
      var b := s[right];
      if b == Space {
        right := right + 1;
        break;
      }
      if IsAsciiLetter(b) {
        cur := cur + [b];
      }
      KeepLettersAppend(s[left..right], [b]);
      assert s[left..right + 1] == s[left..right] + [b];
      right := right + 1;
      end := right;
    }
  }

  /**
   * `extractWords`: the outer loop starts each piece at `left` and keeps
   * the piece's letters when there are any. The result is the reference
   * `Words`: no word is empty, every word is ASCII letters, and the words
   * concatenate to the sentence's letters.
   */
  method ExtractWords(s: seq<Byte>) returns (words: seq<seq<Byte>>)
    ensures words == Words(s)
    ensures LetterWords(words)
    ensures Flatten(words) == KeepLetters(s)
  {
    words := [];
    var left := 0;
    assert s[..0] == [];
    assert Words([]) == [];
    while left < |s|
      invariant 0 <= left <= |s|
      invariant left == 0 || s[left - 1] == Space || left == |s|
      invariant words == Words(s[..left])
      decreases |s| - left
    {
      var cur, right, end := ReadPiece(s, left);
      WordsStep(s, left, end, right);
      if cur != [] {
        words := words + [cur];
      }
      left := right;
    }
    assert s[..left] == s;
    FlattenWords(s);
    WordsAreLetterWords(s);
  }

  /** A missing key reads as 0, as in a Go map of counts. */
  function CountOf(count: map<seq<Byte>, int>, w: seq<Byte>): int {
    if w in count then count[w] else 0
  }

  /** The counting loop of `frequencyCounter`: one increment per word, starting from Go's zero value. */
  method CountWords(words: seq<seq<Byte>>) returns (count: map<seq<Byte>, int>)
    ensures forall w :: CountOf(count, w) == multiset(words)[w]
    ensures forall w :: w in count <==> w in multiset(words)
  {
    count := map[];
    var i := 0;
    while i < |words|
      invariant 0 <= i <= |words|
      invariant forall w :: CountOf(count, w) == multiset(words[..i])[w]
      invariant forall w :: w in count <==> w in multiset(words[..i])
    {
      var w := words[i];
      assert multiset(words[..i + 1]) == multiset(words[..i]) + multiset{w} by {
        assert words[..i + 1] == words[..i] + [w];
      }
      count := count[w := CountOf(count, w) + 1];
      i := i + 1;
    }
    assert words[..i] == words;
  }

  /** The sum of the counts of `keys`, a word without an entry counting 0. */
  function Total(count: map<seq<Byte>, int>, keys: seq<seq<Byte>>): int {
    if |keys| == 0 then 0 else CountOf(count, keys[0]) + Total(count, keys[1..])
  }

  /** The sum of the multiplicities in `ms` of `keys`. */
  function Occurrences(ms: multiset<seq<Byte>>, keys: seq<seq<Byte>>): nat {
    if |keys| == 0 then 0 else ms[keys[0]] + Occurrences(ms, keys[1..])
  }

  lemma {:induction false} OccurrencesOfNone(keys: seq<seq<Byte>>)
    ensures Occurrences(multiset{}, keys) == 0
  {
    if |keys| > 0 {
      OccurrencesOfNone(keys[1..]);
    }
  }

  /** One more occurrence of `w` adds the number of times `w` is listed in `keys`. */
  lemma {:induction false} OccurrencesAdd(ms: multiset<seq<Byte>>, w: seq<Byte>, keys: seq<seq<Byte>>)
    ensures Occurrences(ms + multiset{w}, keys) == Occurrences(ms, keys) + multiset(keys)[w]
  {
    if |keys| > 0 {
      assert keys == [keys[0]] + keys[1..];
      assert multiset(keys)[w] == (if keys[0] == w then 1 else 0) + multiset(keys[1..])[w];
      OccurrencesAdd(ms, w, keys[1..]);
    }
  }

  /** A sequence without repetitions lists each of its elements once. */
  lemma {:induction false} DistinctOnce(keys: seq<seq<Byte>>, w: seq<Byte>)
    requires Lists.Distinct(keys) && w in keys
    ensures multiset(keys)[w] == 1
  {
    assert keys == [keys[0]] + keys[1..];
    assert Lists.Distinct(keys[1..]);
    if keys[0] == w {
      assert w !in keys[1..] by {
        forall i | 0 <= i < |keys[1..]| ensures keys[1..][i] != w {
          assert keys[1..][i] == keys[i + 1];
        }
      }
    } else {
      DistinctOnce(keys[1..], w);
    }
  }

  /** Over keys that list every word once, the multiplicities add up to the number of words. */
  lemma {:induction false} OccurrencesCount(words: seq<seq<Byte>>, keys: seq<seq<Byte>>)
    requires Lists.Distinct(keys)
    requires forall i :: 0 <= i < |words| ==> words[i] in keys
    ensures Occurrences(multiset(words), keys) == |words|
    decreases |words|
  {
    if |words| == 0 {
      OccurrencesOfNone(keys);
    } else {
      var init := words[..|words| - 1];
      var w := words[|words| - 1];
      assert words == init + [w];
      assert multiset(words) == multiset(init) + multiset{w};
      OccurrencesCount(init, keys);
      OccurrencesAdd(multiset(init), w, keys);
      DistinctOnce(keys, w);
    }
  }

  lemma {:induction false} TotalIsOccurrences(count: map<seq<Byte>, int>, ms: multiset<seq<Byte>>, keys: seq<seq<Byte>>)
    requires forall w :: CountOf(count, w) == ms[w]
    ensures Total(count, keys) == Occurrences(ms, keys)
  {
    if |keys| > 0 {
      TotalIsOccurrences(count, ms, keys[1..]);
    }
  }

  /**
   * `frequencyCounter` without its printing: the words of the sentence and,
   * for every word, the number of its occurrences; the keys are exactly the
   * words that occur, and the counts, summed over the keys in any order,
   * add up to the number of words.
   */
  method FrequencyCounter(s: seq<Byte>) returns (words: seq<seq<Byte>>, count: map<seq<Byte>, int>)
    ensures words == Words(s)
    ensures forall w :: CountOf(count, w) == multiset(words)[w]
    ensures forall w :: w in count <==> w in words
    ensures forall keys :: Lists.Distinct(keys) && (forall k :: k in keys <==> k in count) ==> Total(count, keys) == |words|
  {
    words := ExtractWords(s);
    count := CountWords(words);
    forall keys | Lists.Distinct(keys) && (forall k :: k in keys <==> k in count)
      ensures Total(count, keys) == |words|
    {
      TotalIsOccurrences(count, multiset(words), keys);
      OccurrencesCount(words, keys);
    }
  }

  /** The letters of a three-byte piece whose middle byte is not a letter. */
  lemma KeepOuterLetters(x: Byte, y: Byte, z: Byte)
    requires IsAsciiLetter(x) && !IsAsciiLetter(y) && IsAsciiLetter(z)
    ensures KeepLetters([x, y, z]) == [x, z]
  {
    var p: seq<Byte> := [x, y, z];
    var q: seq<Byte> := [y, z];
    var t: seq<Byte> := [z];
    assert p[1..] == q && q[1..] == t && t[1..] == [];
    assert KeepLetters(t) == [z];
    assert KeepLetters(q) == [z];
  }

  /** A tab is not a separator, and other bytes are dropped without cutting: "a\tb c1d" gives "ab" and "cd". */
  lemma OnlySpaceSeparates()
    ensures Words([97, 9, 98, 32, 99, 49, 100]) == [[97, 98], [99, 100]]
  {
    var a: seq<Byte> := [97, 9, 98];
    var b: seq<Byte> := [99, 49, 100];
    assert [97, 9, 98, 32, 99, 49, 100] == a + [Space] + b;
    WordsAtSpace(a, b);
    KeepOuterLetters(97, 9, 98);
    KeepOuterLetters(99, 49, 100);
    WordsOfField(a);
    WordsOfField(b);
  }

  /** Runs of spaces and a leading or trailing space add no words. */
  lemma SpacesAddNoWords(a: seq<Byte>, b: seq<Byte>)
    ensures Words(a + [Space, Space] + b) == Words(a) + Words(b)
  {
    var c := [Space] + b;
    assert a + [Space, Space] + b == a + [Space] + c;
    WordsAtSpace(a, c);
    LeadingSpace(b);
  }

  /** A space at the front adds no word. */
  lemma LeadingSpace(b: seq<Byte>)
    ensures Words([Space] + b) == Words(b)
  {
    WordsAtSpace([], b);
    assert [] + [Space] + b == [Space] + b;
    assert Words([]) == [];
  }
}
