/** The fixed 17-symbol prefix code for UUID strings of src/uuid.rs: a code
    table used by the encoder and an explicit tree walked by the decoder.
    A `BitVec` is a `seq<bool>`, bit 0 first. */
module Uuid {
  import opened Wrappers

  /** Hexadecimal digits in lower case and the hyphen. */
  predicate InAlphabet(c: char) {
    ('0' <= c <= '9') || ('a' <= c <= 'f') || c == '-'
  }

  predicate AllInAlphabet(s: string) {
    forall i :: 0 <= i < |s| ==> InAlphabet(s[i])
  }

  /** The code table (`code_map`) of `HuffmanCoder::new`. */
  function CodeOf(c: char): Option<seq<bool>> {
    match c
    case '0' => Some([false, false, false, false])
    case '1' => Some([false, false, false, true])
    case '2' => Some([false, false, true, false])
    case '3' => Some([false, false, true, true])
    case '4' => Some([false, true, false])
    case '5' => Some([false, true, true, false])
    case '6' => Some([false, true, true, true])
    case '7' => Some([true, false, false, false])
    case '8' => Some([true, false, false, true])
    case '9' => Some([true, false, true, false, false])
    case 'a' => Some([true, false, true, false, true])
    case 'b' => Some([true, false, true, true, false])
    case 'c' => Some([true, false, true, true, true])
    case 'd' => Some([true, true, false, false, false])
    case 'e' => Some([true, true, false, false, true])
    case 'f' => Some([true, true, false, true, false])
    case '-' => Some([true, true, true])
    case _ => None
  }

  /** Code lengths as the table was designed: three bits for the two most
      frequent symbols of a version-4 UUID, five for '9' and 'a'..'f', four
      for the rest. */
  function CodeLength(c: char): nat {
    if c == '4' || c == '-' then 3
    else if c == '9' || ('a' <= c <= 'f') then 5
    else 4
  }

  lemma CodeTable(c: char)
    ensures CodeOf(c).Some? <==> InAlphabet(c)
    ensures CodeOf(c).Some? ==> |CodeOf(c).value| == CodeLength(c)
  {
  }

  datatype Node = Internal(zero: nat, one: nat) | Leaf(symbol: char)

  /** The decoding tree of `HuffmanCoder::new`, node by node (the vector's
      index order); node 0 is the root, and the comment gives the code
      prefix each node stands for. */
  const NodeCount: nat := 34

  function NodeAt(i: nat): Node
    requires i < NodeCount
  {
    match i
    case 0 => Internal(1, 2)     // root
    case 1 => Internal(3, 4)     // 0
    case 2 => Internal(5, 6)     // 1
    case 3 => Internal(7, 8)     // 00
    case 4 => Internal(9, 10)    // 01
    case 5 => Internal(11, 12)   // 10
    case 6 => Internal(13, 14)   // 11
    case 7 => Internal(15, 16)   // 000
    case 8 => Internal(17, 18)   // 001
    case 9 => Leaf('4')          // 010
    case 10 => Internal(19, 20)  // 011
    case 11 => Internal(21, 22)  // 100
    case 12 => Internal(23, 24)  // 101
    case 13 => Internal(25, 26)  // 110
    case 14 => Leaf('-')         // 111
    case 15 => Leaf('0')         // 0000
    case 16 => Leaf('1')         // 0001
    case 17 => Leaf('2')         // 0010
    case 18 => Leaf('3')         // 0011
    case 19 => Leaf('5')         // 0110
    case 20 => Leaf('6')         // 0111
    case 21 => Leaf('7')         // 1000
    case 22 => Leaf('8')         // 1001
    case 23 => Internal(27, 28)  // 1010
    case 24 => Internal(29, 30)  // 1011
    case 25 => Internal(31, 32)  // 1100
    case 26 => Internal(33, 34)  // 1101
    case 27 => Leaf('9')         // 10100
    case 28 => Leaf('a')         // 10101
    case 29 => Leaf('b')         // 10110
    case 30 => Leaf('c')         // 10111
    case 31 => Leaf('d')         // 11000
    case 32 => Leaf('e')         // 11001
    case _  => Leaf('f')         // 11010
  }

  /** Every child index but one names a node of the tree: the `one` child
      of node 26 (code prefix 1101) is 34, one past the last node, so the
      unassigned bit pattern 11011 leads outside the tree. */
  lemma TreeShape()
    ensures NodeCount == 34
    ensures forall i :: 0 <= i < NodeCount && NodeAt(i).Internal? ==> NodeAt(i).zero < 34 && NodeAt(i).one <= 34
    ensures NodeAt(26) == Internal(33, 34)
    ensures forall i :: 0 <= i < NodeCount && NodeAt(i).Internal? && i != 26 ==> NodeAt(i).one < 34
  {
  }

  /** The node reached by following `path` from `index`, or None when a leaf
      is met before the path ends or an index falls outside the tree. */
  function Follow(index: nat, path: seq<bool>): (r: Option<nat>)
    ensures r.Some? ==> r.value < NodeCount
    decreases |path|
  {
    if index >= NodeCount then None
    else if |path| == 0 then Some(index)
    else match NodeAt(index)
      case Leaf(_) => None
      case Internal(zero, one) => Follow(if path[0] then one else zero, path[1..])
  }

  lemma {:induction false} FollowAppend(index: nat, p: seq<bool>, q: seq<bool>)
    ensures Follow(index, p + q)
         == (match Follow(index, p) case None => None case Some(j) => Follow(j, q))
    decreases |p|
  {
    if |p| == 0 {
      assert p + q == q;
    } else if index < NodeCount && NodeAt(index).Internal? {
      assert (p + q)[1..] == p[1..] + q;
      FollowAppend(if p[0] then NodeAt(index).one else NodeAt(index).zero, p[1..], q);
    }
  }

  lemma CodesUnder00(c: char)
    requires c == '0' || c == '1' || c == '2' || c == '3'
    ensures CodeOf(c).Some? && Follow(0, CodeOf(c).value).Some?
    ensures NodeAt(Follow(0, CodeOf(c).value).value) == Leaf(c)
  {
    if c == '0' {
      assert Follow(0, [false, false, false, false]) == Some(15);
    } else if c == '1' {
      assert Follow(0, [false, false, false, true]) == Some(16);
    } else if c == '2' {
      assert Follow(0, [false, false, true, false]) == Some(17);
    } else {
      assert Follow(0, [false, false, true, true]) == Some(18);
    }
  }

  lemma CodesUnder01(c: char)
    requires c == '4' || c == '5' || c == '6'
    ensures CodeOf(c).Some? && Follow(0, CodeOf(c).value).Some?
    ensures NodeAt(Follow(0, CodeOf(c).value).value) == Leaf(c)
  {
    if c == '4' {
      assert Follow(0, [false, true, false]) == Some(9);
    } else if c == '5' {
      assert Follow(0, [false, true, true, false]) == Some(19);
    } else {
      assert Follow(0, [false, true, true, true]) == Some(20);
    }
  }

  lemma CodesUnder100(c: char)
    requires c == '7' || c == '8'
    ensures CodeOf(c).Some? && Follow(0, CodeOf(c).value).Some?
    ensures NodeAt(Follow(0, CodeOf(c).value).value) == Leaf(c)
  {
    if c == '7' {
      assert Follow(0, [true, false, false, false]) == Some(21);
    } else {
      assert Follow(0, [true, false, false, true]) == Some(22);
    }
  }

  lemma CodesUnder1010(c: char)
    requires c == '9' || c == 'a'
    ensures CodeOf(c).Some? && Follow(0, CodeOf(c).value).Some?
    ensures NodeAt(Follow(0, CodeOf(c).value).value) == Leaf(c)
  {
    if c == '9' {
      assert Follow(27, []) == Some(27);
      assert Follow(23, [false]) == Some(27);
      assert Follow(12, [false, false]) == Some(27);
      assert Follow(5, [true, false, false]) == Some(27);
      assert Follow(2, [false, true, false, false]) == Some(27);
      assert Follow(0, [true, false, true, false, false]) == Some(27);
    } else {
      assert Follow(28, []) == Some(28);
      assert Follow(23, [true]) == Some(28);
      assert Follow(12, [false, true]) == Some(28);
      assert Follow(5, [true, false, true]) == Some(28);
      assert Follow(2, [false, true, false, true]) == Some(28);
      assert Follow(0, [true, false, true, false, true]) == Some(28);
    }
  }

  lemma CodesUnder1011(c: char)
    requires c == 'b' || c == 'c'
    ensures CodeOf(c).Some? && Follow(0, CodeOf(c).value).Some?
    ensures NodeAt(Follow(0, CodeOf(c).value).value) == Leaf(c)
  {
    if c == 'b' {
      assert Follow(29, []) == Some(29);
      assert Follow(24, [false]) == Some(29);
      assert Follow(12, [true, false]) == Some(29);
      assert Follow(5, [true, true, false]) == Some(29);
      assert Follow(2, [false, true, true, false]) == Some(29);
      assert Follow(0, [true, false, true, true, false]) == Some(29);
    } else {
      assert Follow(30, []) == Some(30);
      assert Follow(24, [true]) == Some(30);
      assert Follow(12, [true, true]) == Some(30);
      assert Follow(5, [true, true, true]) == Some(30);
      assert Follow(2, [false, true, true, true]) == Some(30);
      assert Follow(0, [true, false, true, true, true]) == Some(30);
    }
  }

  lemma CodesUnder1100(c: char)
    requires c == 'd' || c == 'e'
    ensures CodeOf(c).Some? && Follow(0, CodeOf(c).value).Some?
    ensures NodeAt(Follow(0, CodeOf(c).value).value) == Leaf(c)
  {
    if c == 'd' {
      assert Follow(31, []) == Some(31);
      assert Follow(25, [false]) == Some(31);
      assert Follow(13, [false, false]) == Some(31);
      assert Follow(6, [false, false, false]) == Some(31);
      assert Follow(2, [true, false, false, false]) == Some(31);
      assert Follow(0, [true, true, false, false, false]) == Some(31);
    } else {
      assert Follow(32, []) == Some(32);
      assert Follow(25, [true]) == Some(32);
      assert Follow(13, [false, true]) == Some(32);
      assert Follow(6, [false, false, true]) == Some(32);
      assert Follow(2, [true, false, false, true]) == Some(32);
      assert Follow(0, [true, true, false, false, true]) == Some(32);
    }
  }

  lemma CodesUnder11(c: char)
    requires c == 'f' || c == '-'
    ensures CodeOf(c).Some? && Follow(0, CodeOf(c).value).Some?
    ensures NodeAt(Follow(0, CodeOf(c).value).value) == Leaf(c)
  {
    if c == 'f' {
      assert Follow(33, []) == Some(33);
      assert Follow(26, [false]) == Some(33);
      assert Follow(13, [true, false]) == Some(33);
      assert Follow(6, [false, true, false]) == Some(33);
      assert Follow(2, [true, false, true, false]) == Some(33);
      assert Follow(0, [true, true, false, true, false]) == Some(33);
    } else {
      assert Follow(0, [true, true, true]) == Some(14);
    }
  }

  /** Following a symbol's code from the root passes only through internal
      nodes and ends at the leaf holding that symbol. */
  lemma CodeLeadsToLeaf(c: char)
    requires InAlphabet(c)
    ensures CodeOf(c).Some?
    ensures Follow(0, CodeOf(c).value).Some?
    ensures NodeAt(Follow(0, CodeOf(c).value).value) == Leaf(c)
  {
    if '0' <= c <= '3' {
      CodesUnder00(c);
    } else if '4' <= c <= '6' {
      CodesUnder01(c);
    } else if c == '7' || c == '8' {
      CodesUnder100(c);
    } else if c == '9' || c == 'a' {
      CodesUnder1010(c);
    } else if c == 'b' || c == 'c' {
      CodesUnder1011(c);
    } else if c == 'd' || c == 'e' {
      CodesUnder1100(c);
    } else {
      CodesUnder11(c);
    }
  }

  predicate IsPrefix(p: seq<bool>, q: seq<bool>) {
    |p| <= |q| && q[..|p|] == p
  }

  /** The code is prefix-free: no symbol's code is a prefix of another's. */
  lemma PrefixFree(c1: char, c2: char)
    requires InAlphabet(c1) && InAlphabet(c2) && c1 != c2
    ensures !IsPrefix(CodeOf(c1).value, CodeOf(c2).value)
  {
    CodeLeadsToLeaf(c1);
    CodeLeadsToLeaf(c2);
    var p := CodeOf(c1).value;
    var q := CodeOf(c2).value;
    if IsPrefix(p, q) {
      assert q == p + q[|p|..];
      FollowAppend(0, p, q[|p|..]);
      assert false;
    }
  }

  /** Concatenated codes of a string over the alphabet. */
  function Codes(s: string): seq<bool>
    requires AllInAlphabet(s)
  {
    if |s| == 0 then [] else CodeOf(s[0]).value + Codes(s[1..])
  }

  function CodeLengthSum(s: string): nat {
    if |s| == 0 then 0 else CodeLength(s[0]) + CodeLengthSum(s[1..])
  }

  datatype EncodeError = NotInCodeMap(ch: char)

  /** `encode_uuid`: the concatenated codes, or an error naming the first
      character that has no code. */
  function Encode(s: string): (r: Result<seq<bool>, EncodeError>)
    ensures r.Ok? <==> AllInAlphabet(s)
    ensures r.Ok? ==> r.value == Codes(s) && |r.value| == CodeLengthSum(s)
    ensures r.Err? ==> exists i :: 0 <= i < |s| && s[i] == r.error.ch && !InAlphabet(s[i])
                                   && AllInAlphabet(s[..i])
  {
    if |s| == 0 then Ok([])
    else
      CodeTable(s[0]);
      match CodeOf(s[0])
      case None =>
        assert s[..0] == [];
        Err(NotInCodeMap(s[0]))
      case Some(code) =>
        match Encode(s[1..])
        case Err(e) =>
          ErrorShifts(s, e.ch);
          Err(e)
        case Ok(rest) =>
          assert forall i :: 1 <= i < |s| ==> s[i] == s[1..][i - 1];
          Ok(code + rest)
  }

  /** An unmapped character found in the tail, after only mapped ones, is
      one in the whole string once the head is mapped. */
  lemma ErrorShifts(s: string, ch: char)
    requires |s| > 0 && InAlphabet(s[0])
    requires exists i :: 0 <= i < |s[1..]| && s[1..][i] == ch && !InAlphabet(s[1..][i]) && AllInAlphabet(s[1..][..i])
    ensures exists i :: 0 <= i < |s| && s[i] == ch && !InAlphabet(s[i]) && AllInAlphabet(s[..i])
  {
    var j :| 0 <= j < |s[1..]| && s[1..][j] == ch && !InAlphabet(s[1..][j]) && AllInAlphabet(s[1..][..j]);
    assert s[..j + 1] == [s[0]] + s[1..][..j];
    assert s[j + 1] == s[1..][j];
  }

  /** The loop of `decode`: `pos` is the index of the bit in hand, `index`
      the tree node reached, `acc` the symbols emitted so far. None is the
      panic of indexing the tree past its end. */
  function DecodeLoop(bits: seq<bool>, pos: nat, index: nat, acc: string): Option<string>
    requires pos < |bits|
    decreases 2 * (|bits| - pos) + (if index < NodeCount && NodeAt(index).Leaf? then 1 else 0)
  {
    if index >= NodeCount then None
    else match NodeAt(index)
      case Internal(zero, one) =>
        var next := if bits[pos] then one else zero;
        if pos + 1 == |bits| then
          // no next bit: a symbol only if the last bit completed a code
          if next >= NodeCount then None
          else if NodeAt(next).Leaf? then Some(acc + [NodeAt(next).symbol])
          else Some(acc)
        else
          DecodeLoop(bits, pos + 1, next, acc)
      case Leaf(symbol) =>
        var acc' := acc + [symbol];
        if |acc'| == 36 then Some(acc') else DecodeLoop(bits, pos, 0, acc')
  }

  /** `decode`: None stands for a panic, either unwrapping the first bit of
      an empty bit vector or walking off the tree. */
  function Decode(bits: seq<bool>): (r: Option<string>)
    ensures |bits| == 0 ==> r.None?
  {
    if |bits| == 0 then None else DecodeLoop(bits, 0, 0, "")
  }

  /** The unassigned pattern 11011 walks off the tree: decoding panics. */
  lemma UnassignedPatternPanics()
    ensures Decode([true, true, false, true, true]) == None
  {
  }

  /** Reading a path that stays inside the tree, with bits left after it,
      moves the decoder to the node the path leads to. */
  lemma {:induction false} AdvanceMid(bits: seq<bool>, pos: nat, index: nat, acc: string, path: seq<bool>)
    requires |path| > 0 && pos + |path| < |bits| && bits[pos..pos + |path|] == path
    requires Follow(index, path).Some?
    ensures DecodeLoop(bits, pos, index, acc) == DecodeLoop(bits, pos + |path|, Follow(index, path).value, acc)
    decreases |path|
  {
    assert bits[pos] == path[0];
    if |path| > 1 {
      var next := if path[0] then NodeAt(index).one else NodeAt(index).zero;
      assert bits[pos + 1..pos + 1 + |path[1..]|] == path[1..];
      AdvanceMid(bits, pos + 1, next, acc, path[1..]);
    }
  }

  /** When the bits end with the path, the decoder stops: it emits a symbol
      only when the path ends at a leaf. */
  lemma {:induction false} AdvanceEnd(bits: seq<bool>, pos: nat, index: nat, acc: string, path: seq<bool>)
    requires |path| > 0 && pos + |path| == |bits| && bits[pos..] == path
    requires Follow(index, path).Some?
    ensures var j := Follow(index, path).value;
      DecodeLoop(bits, pos, index, acc) == Some(if NodeAt(j).Leaf? then acc + [NodeAt(j).symbol] else acc)
    decreases |path|
  {
    assert bits[pos] == path[0];
    if |path| > 1 {
      var next := if path[0] then NodeAt(index).one else NodeAt(index).zero;
      assert bits[pos + 1..] == path[1..];
      AdvanceEnd(bits, pos + 1, next, acc, path[1..]);
    }
  }

  lemma CodesSplit(s: string)
    requires AllInAlphabet(s) && |s| > 0
    ensures AllInAlphabet(s[1..])
    ensures CodeOf(s[0]).Some? && Codes(s) == CodeOf(s[0]).value + Codes(s[1..])
    ensures |CodeOf(s[0]).value| >= 3
  {
    CodeTable(s[0]);
  }

  /** The code the concatenation starts with leads from the root to the
      first symbol's leaf. */
  lemma HeadCode(s: string) returns (code: seq<bool>)
    requires AllInAlphabet(s) && |s| > 0
    ensures AllInAlphabet(s[1..])
    ensures Codes(s) == code + Codes(s[1..]) && |code| >= 3
    ensures Follow(0, code).Some? && NodeAt(Follow(0, code).value) == Leaf(s[0])
  {
    CodesSplit(s);
    CodeLeadsToLeaf(s[0]);
    code := CodeOf(s[0]).value;
  }

  lemma CodesEmpty(s: string)
    requires AllInAlphabet(s)
    ensures |Codes(s)| == 0 <==> |s| == 0
  {
    if |s| > 0 {
      CodesSplit(s);
    }
  }

  /** At a leaf the decoder emits its symbol, then stops at 36 symbols or
      restarts from the root without consuming a bit. */
  lemma LeafStep(bits: seq<bool>, pos: nat, j: nat, acc: string, c: char)
    requires pos < |bits| && j < NodeCount && NodeAt(j) == Leaf(c)
    ensures DecodeLoop(bits, pos, j, acc)
         == if |acc| + 1 == 36 then Some(acc + [c]) else DecodeLoop(bits, pos, 0, acc + [c])
  {
  }

  /** Splitting the bits after `pos` into a code and what follows it. */
  lemma SliceAfterCode(bits: seq<bool>, pos: nat, code: seq<bool>, rest: seq<bool>)
    requires pos <= |bits| && bits[pos..] == code + rest
    ensures pos + |code| + |rest| == |bits|
    ensures bits[pos..pos + |code|] == code
    ensures bits[pos + |code|..] == rest
  {
    assert bits[pos..pos + |code|] == bits[pos..][..|code|];
    assert bits[pos + |code|..] == bits[pos..][|code|..];
  }

  /** Reading a path from the root to a symbol's leaf, with bits left after
      it, emits the symbol and then stops at 36 symbols or goes on from the
      root. */
  lemma DecodeOneCode(bits: seq<bool>, pos: nat, c: char, code: seq<bool>, acc: string)
    requires |code| > 0 && Follow(0, code).Some? && NodeAt(Follow(0, code).value) == Leaf(c)
    requires pos + |code| < |bits| && bits[pos..pos + |code|] == code
    ensures DecodeLoop(bits, pos, 0, acc)
         == if |acc| + 1 == 36 then Some(acc + [c])
            else DecodeLoop(bits, pos + |code|, 0, acc + [c])
  {
    AdvanceMid(bits, pos, 0, acc, code);
    LeafStep(bits, pos + |code|, Follow(0, code).value, acc, c);
  }

  /** Reading a path from the root to a symbol's leaf that ends the bits
      emits the symbol and stops. */
  lemma DecodeLastCode(bits: seq<bool>, pos: nat, c: char, code: seq<bool>, acc: string)
    requires |code| > 0 && Follow(0, code).Some? && NodeAt(Follow(0, code).value) == Leaf(c)
    requires pos + |code| == |bits| && bits[pos..] == code
    ensures DecodeLoop(bits, pos, 0, acc) == Some(acc + [c])
  {
    AdvanceEnd(bits, pos, 0, acc, code);
  }

  lemma AppendHead(acc: string, s: string)
    requires |s| > 0
    ensures acc + [s[0]] + s[1..] == acc + s
  {
    assert s == [s[0]] + s[1..];
  }

  /** Reading the first symbol's code of a run: `len` bits are consumed, the
      symbol is emitted, and decoding either ends with the bits or goes on
      with the codes of the rest. */
  lemma FirstCode(bits: seq<bool>, pos: nat, s: string, pad: seq<bool>, acc: string) returns (len: nat)
    requires AllInAlphabet(s) && |s| > 0
    requires pos <= |bits| && bits[pos..] == Codes(s) + pad
    ensures AllInAlphabet(s[1..])
    ensures 0 < len && pos + len <= |bits| && bits[pos + len..] == Codes(s[1..]) + pad
    ensures |s| == 1 ==> bits[pos + len..] == pad
    ensures pos + len == |bits| ==> |s| == 1 && DecodeLoop(bits, pos, 0, acc) == Some(acc + [s[0]])
    ensures pos + len < |bits| ==>
      DecodeLoop(bits, pos, 0, acc)
        == if |acc| + 1 == 36 then Some(acc + [s[0]]) else DecodeLoop(bits, pos + len, 0, acc + [s[0]])
  {
    var c := s[0];
    var code := HeadCode(s);
    len := |code|;
    var rest := Codes(s[1..]) + pad;
    SliceAfterCode(bits, pos, code, rest);
    CodesEmpty(s[1..]);
    if |s| == 1 {
      assert s[1..] == [];
    }
    if |rest| == 0 {
      DecodeLastCode(bits, pos, c, code, acc);
    } else {
      DecodeOneCode(bits, pos, c, code, acc);
    }
  }

  /** The decoder reads back a run of codes: it stops after the last one when
      the bits end there, or after 36 symbols whatever follows. */
  lemma {:induction false} DecodeCodes(bits: seq<bool>, pos: nat, s: string, pad: seq<bool>, acc: string)
    requires AllInAlphabet(s) && |s| > 0 && |acc| + |s| <= 36
    requires pad == [] || |acc| + |s| == 36
    requires pos <= |bits| && bits[pos..] == Codes(s) + pad
    ensures pos < |bits|
    ensures DecodeLoop(bits, pos, 0, acc) == Some(acc + s)
    decreases |s|
  {
    var len := FirstCode(bits, pos, s, pad, acc);
    if pos + len == |bits| || |acc| + 1 == 36 {
      assert s == [s[0]];
    } else {
      DecodeCodes(bits, pos + len, s[1..], pad, acc + [s[0]]);
      AppendHead(acc, s);
    }
  }

  /** Decoding from the first bit of a non-empty vector. */
  lemma DecodeStart(bits: seq<bool>)
    requires |bits| > 0
    ensures Decode(bits) == DecodeLoop(bits, 0, 0, "")
  {
  }

  /** Round trip: every non-empty string over the alphabet of at most 36
      symbols decodes to itself. */
  lemma RoundTrip(s: string)
    requires AllInAlphabet(s) && 0 < |s| <= 36
    ensures Encode(s).Ok?
    ensures Decode(Encode(s).value) == Some(s)
  {
    var bits := Codes(s);
    assert bits[0..] == Codes(s) + [];
    DecodeCodes(bits, 0, s, [], "");
    DecodeStart(bits);
    assert "" + s == s;
    assert Encode(s).value == bits;
  }

  /** A 36-symbol string decodes to itself whatever padding bits follow its
      codes, because decoding stops at 36 symbols. */
  lemma RoundTripPadded(s: string, pad: seq<bool>)
    requires AllInAlphabet(s) && |s| == 36
    ensures Encode(s).Ok?
    ensures Decode(Encode(s).value + pad) == Some(s)
  {
    var bits := Codes(s) + pad;
    assert bits[0..] == Codes(s) + pad;
    DecodeCodes(bits, 0, s, pad, "");
    DecodeStart(bits);
    assert "" + s == s;
    assert Encode(s).value + pad == bits;
  }

  /** Bits that run out in the middle of a code, at an internal node, add
      no symbol. */
  lemma {:induction false} DecodeCodesThenTail(bits: seq<bool>, pos: nat, s: string, tail: seq<bool>, acc: string)
    requires AllInAlphabet(s) && |acc| + |s| < 36
    requires |tail| > 0 && Follow(0, tail).Some? && NodeAt(Follow(0, tail).value).Internal?
    requires pos <= |bits| && bits[pos..] == Codes(s) + tail
    ensures pos < |bits|
    ensures DecodeLoop(bits, pos, 0, acc) == Some(acc + s)
    decreases |s|
  {
    if |s| == 0 {
      TailAddsNothing(bits, pos, tail, acc);
      assert acc + s == acc;
    } else {
      var len := FirstCode(bits, pos, s, tail, acc);
      DecodeCodesThenTail(bits, pos + len, s[1..], tail, acc + [s[0]]);
      AppendHead(acc, s);
    }
  }

  /** Bits that end at an internal node of the tree add no symbol. */
  lemma TailAddsNothing(bits: seq<bool>, pos: nat, tail: seq<bool>, acc: string)
    requires |tail| > 0 && Follow(0, tail).Some? && NodeAt(Follow(0, tail).value).Internal?
    requires pos <= |bits| && bits[pos..] == tail
    ensures pos < |bits|
    ensures DecodeLoop(bits, pos, 0, acc) == Some(acc)
  {
    AdvanceEnd(bits, pos, 0, acc, tail);
  }

  /** A proper prefix of a code ends at an internal node of the tree. */
  lemma ProperPrefixStopsInside(c: char, k: nat)
    requires InAlphabet(c)
    requires 0 < k < |CodeOf(c).value|
    ensures Follow(0, CodeOf(c).value[..k]).Some?
    ensures NodeAt(Follow(0, CodeOf(c).value[..k]).value).Internal?
  {
    CodeLeadsToLeaf(c);
    var code := CodeOf(c).value;
    assert code == code[..k] + code[k..];
    FollowAppend(0, code[..k], code[k..]);
  }

  /** A string of fewer than 36 symbols followed by a proper prefix of some
      symbol's code decodes to the string alone. */
  lemma TruncatedCodeAddsNothing(s: string, c: char, k: nat)
    requires AllInAlphabet(s) && |s| < 36 && InAlphabet(c)
    requires 0 < k < |CodeOf(c).value|
    ensures Encode(s).Ok?
    ensures Decode(Encode(s).value + CodeOf(c).value[..k]) == Some(s)
  {
    CodeTable(c);
    ProperPrefixStopsInside(c, k);
    DecodeCodesThenStop(s, CodeOf(c).value[..k]);
  }

  /** Bits that stop inside the tree after a string's codes add nothing. */
  lemma DecodeCodesThenStop(s: string, tail: seq<bool>)
    requires AllInAlphabet(s) && |s| < 36 && |tail| > 0
    requires Follow(0, tail).Some? && NodeAt(Follow(0, tail).value).Internal?
    ensures Decode(Codes(s) + tail) == Some(s)
  {
    var bits := Codes(s) + tail;
    assert bits[0..] == Codes(s) + tail;
    DecodeCodesThenTail(bits, 0, s, tail, "");
    assert "" + s == s;
    DecodeStart(bits);
  }

  /** `Uuid`: a string wrapper. */
  datatype UuidValue = UuidValue(id: string)

  /** `Uuid::serialize`: encode the id with the shared coder. */
  function Serialize(u: UuidValue): (r: Result<seq<bool>, EncodeError>)
    ensures r.Ok? <==> AllInAlphabet(u.id)
  {
    Encode(u.id)
  }

  /** `Uuid::deserialize`: decode; None is the panic on an empty vector. */
  function Deserialize(bits: seq<bool>): (r: Option<UuidValue>)
    ensures |bits| == 0 ==> r.None?
  {
    match Decode(bits)
    case None => None
    case Some(s) => Some(UuidValue(s))
  }

  /** A canonical 36-character UUID survives serialization, also when the
      bits are padded to a whole number of bytes. */
  lemma UuidRoundTrip(u: UuidValue, pad: seq<bool>)
    requires AllInAlphabet(u.id) && |u.id| == 36
    ensures Serialize(u).Ok?
    ensures Deserialize(Serialize(u).value + pad) == Some(u)
  {
    RoundTripPadded(u.id, pad);
  }
}
