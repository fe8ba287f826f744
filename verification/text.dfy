/** The string handling the two stemming tokenizers share (`tokenize` in
    src/lib.rs and src/tok.rs, `EnglishStemLowercase::tokenize` in
    src/tok.rs): splitting on non-alphanumeric characters, the UTF-8 byte
    length that `str::len` reports, and the stem-if-alphabetic step. The
    Unicode character classes, lowercasing and the Porter stemmer come from
    libraries and are parameters. */
module Text {

  /** The foreign text operations: `char::is_alphanumeric`,
      `char::is_alphabetic`, `str::to_lowercase` and `porter_stemmer::stem`. */
  datatype TextOps = TextOps(
    isAlphanumeric: char -> bool,
    isAlphabetic: char -> bool,
    lowercase: string -> string,
    stem: string -> string)

  /** Bytes UTF-8 needs for one character. */
  function Utf8Width(c: char): (n: nat)
    ensures 1 <= n <= 4
    ensures n == 1 <==> (c as int) < 0x80
  {
    if (c as int) < 0x80 then 1
    else if (c as int) < 0x800 then 2
    else if (c as int) < 0x1_0000 then 3
    else 4
  }

  /** `str::len`: the length in UTF-8 bytes. */
  function Utf8Len(s: string): (n: nat)
    ensures |s| <= n <= 4 * |s|
  {
    if |s| == 0 then 0 else Utf8Width(s[0]) + Utf8Len(s[1..])
  }

  /** An ASCII string's byte length is its character count. */
  lemma {:induction false} AsciiLen(s: string)
    requires forall i :: 0 <= i < |s| ==> (s[i] as int) < 0x80
    ensures Utf8Len(s) == |s|
  {
    if |s| > 0 {
      AsciiLen(s[1..]);
    }
  }

  /** No character of `s` is a split point (a character `inPiece` rejects). */
  predicate Unbroken(s: string, inPiece: char -> bool) {
    forall i :: 0 <= i < |s| ==> inPiece(s[i])
  }

  /** `str::split` at every character `inPiece` rejects (non-alphanumerics
      for the tokenizers, '.' for tokenizer names): the maximal runs between
      split points, empty runs included, so there is always one more piece
      than split points. */
  function Split(s: string, inPiece: char -> bool): (pieces: seq<string>)
    ensures |pieces| == |Separators(s, inPiece)| + 1
    ensures forall i :: 0 <= i < |pieces| ==> Unbroken(pieces[i], inPiece)
  {
    if |s| == 0 then [""]
    else
      var rest := Split(s[1..], inPiece);
      if !inPiece(s[0]) then [""] + rest
      else [[s[0]] + rest[0]] + rest[1..]
  }

  /** The split points of `s`, in order. */
  function Separators(s: string, inPiece: char -> bool): (seps: string)
    ensures forall i :: 0 <= i < |seps| ==> !inPiece(seps[i])
    ensures |seps| <= |s|
  {
    if |s| == 0 then []
    else if !inPiece(s[0]) then [s[0]] + Separators(s[1..], inPiece)
    else Separators(s[1..], inPiece)
  }

  /** Put the split points back between the pieces. */
  function Join(pieces: seq<string>, seps: string): (s: string)
    requires |pieces| == |seps| + 1
    decreases |seps|
  {
    if |seps| == 0 then pieces[0]
    else pieces[0] + [seps[0]] + Join(pieces[1..], seps[1..])
  }

  /** Splitting loses nothing: the pieces and the split points rebuild the
      text. */
  lemma {:induction false} SplitJoin(s: string, inPiece: char -> bool)
    ensures Join(Split(s, inPiece), Separators(s, inPiece)) == s
  {
    if |s| > 0 {
      SplitJoin(s[1..], inPiece);
      var rest := Split(s[1..], inPiece);
      var seps := Separators(s[1..], inPiece);
      if !inPiece(s[0]) {
        var pieces := [""] + rest;
        assert pieces[1..] == rest;
        assert Join(pieces, [s[0]] + seps) == "" + [s[0]] + Join(rest, seps);
        assert s == [s[0]] + s[1..];
      } else {
        var pieces := [[s[0]] + rest[0]] + rest[1..];
        if |seps| == 0 {
          assert Join(rest, seps) == rest[0];
        } else {
          assert pieces[1..] == rest[1..];
          assert Join(rest, seps) == rest[0] + [seps[0]] + Join(rest[1..], seps[1..]);
          assert Join(pieces, seps) == [s[0]] + rest[0] + [seps[0]] + Join(rest[1..], seps[1..]);
        }
        assert s == [s[0]] + s[1..];
      }
    }
  }

  /** A split point cuts the text in two independent halves. */
  lemma {:induction false} SplitAround(a: string, c: char, b: string, inPiece: char -> bool)
    requires !inPiece(c)
    ensures Split(a + [c] + b, inPiece) == Split(a, inPiece) + Split(b, inPiece)
  {
    var s := a + [c] + b;
    if |a| == 0 {
      assert s == [c] + b;
      assert s[1..] == b;
    } else {
      assert s[0] == a[0];
      assert s[1..] == a[1..] + [c] + b;
      SplitAround(a[1..], c, b, inPiece);
    }
  }

  /** A text without split points is one piece. */
  lemma {:induction false} SplitUnbroken(s: string, inPiece: char -> bool)
    requires Unbroken(s, inPiece)
    ensures Split(s, inPiece) == [s]
  {
    if |s| > 0 {
      SplitUnbroken(s[1..], inPiece);
      assert s == [s[0]] + s[1..];
    }
  }

  /** `is_alpha`: every character alphabetic. */
  predicate AllAlphabetic(ops: TextOps, s: string) {
    forall i :: 0 <= i < |s| ==> ops.isAlphabetic(s[i])
  }

  /** The last step of both stemming tokenizers: stem a purely alphabetic
      piece, keep any other as it is. */
  function Finish(ops: TextOps, s: string): (t: string)
    ensures AllAlphabetic(ops, s) ==> t == ops.stem(s)
    ensures !AllAlphabetic(ops, s) ==> t == s
  {
    if AllAlphabetic(ops, s) then ops.stem(s) else s
  }

  /** The pieces of at least two UTF-8 bytes, in order (`filter(|s| s.len()
      >= 2)`). */
  function Long(pieces: seq<string>): (r: seq<string>)
    ensures |r| <= |pieces|
    ensures forall i :: 0 <= i < |r| ==> Utf8Len(r[i]) >= 2 && r[i] in pieces
    ensures forall p :: p in pieces && Utf8Len(p) >= 2 ==> p in r
  {
    if |pieces| == 0 then []
    else
      var rest := Long(pieces[1..]);
      assert forall p :: p in pieces ==> p == pieces[0] || p in pieces[1..];
      if Utf8Len(pieces[0]) >= 2 then [pieces[0]] + rest else rest
  }

  lemma {:induction false} LongAppend(a: seq<string>, b: seq<string>)
    ensures Long(a + b) == Long(a) + Long(b)
  {
    if |a| > 0 {
      assert (a + b)[0] == a[0];
      assert (a + b)[1..] == a[1..] + b;
      LongAppend(a[1..], b);
    } else {
      assert a + b == b;
    }
  }
}
