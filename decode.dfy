/** The decoding automaton of translate, as a function of the bits, and what
    it does to a stream made of saved codes. */
module Decoding {
  import opened HuffmanNode
  import opened Table
  import opened TableProperties

  /** A tree translate can walk without reaching a null child: present, not a
      single leaf, and without one-child nodes. */
  predicate Decodable(t: Tree)
  {
    t.Node? && !t.IsLeaf() && Full(t)
  }

  /** One move of the cursor: bit 0 to the left child, bit 1 to the right
      child; any other value leaves the cursor where it is. */
  function Step(curr: Tree, bit: int): Tree
    requires curr.Node?
  {
    if bit == 0 then curr.left else if bit == 1 then curr.right else curr
  }

  /** The symbols emitted from cursor `curr` on: follow each bit, emit the
      symbol of a leaf when one is reached and go back to the root; bits that
      end before a leaf emit nothing. */
  function DecodeFrom(root: Tree, curr: Tree, bits: seq<int>): seq<nat>
    requires Decodable(root) && Decodable(curr)
    decreases |bits|
  {
    if bits == [] then []
    else
      var next := Step(curr, bits[0]);
      if next.IsLeaf() then [next.value] + DecodeFrom(root, root, bits[1..])
      else DecodeFrom(root, next, bits[1..])
  }

  /** translate, starting with the cursor on the root. */
  function Decode(root: Tree, bits: seq<int>): seq<nat>
    requires Decodable(root)
  {
    DecodeFrom(root, root, bits)
  }

  /** What PrintStream.write puts out for a run of symbols: one byte per
      symbol, its low eight bits. */
  function LowBytes(symbols: seq<nat>): (r: seq<nat>)
    ensures |r| == |symbols|
    ensures forall i :: 0 <= i < |r| ==> r[i] < 256 && (symbols[i] < 256 ==> r[i] == symbols[i])
  {
    seq(|symbols|, i requires 0 <= i < |symbols| => symbols[i] % 256)
  }

  /** Writing a symbol and then a run writes its byte and then the run's. */
  lemma LowBytesCons(s: nat, rest: seq<nat>)
    ensures LowBytes([s] + rest) == [s % 256] + LowBytes(rest)
  {
    var written, expected := LowBytes([s] + rest), [s % 256] + LowBytes(rest);
    forall i | 0 <= i < |written| ensures written[i] == expected[i] {
      if i > 0 {
        assert ([s] + rest)[i] == rest[i - 1];
      }
    }
  }

  /** The bits a code of '0'/'1' characters stands for. */
  function Bits(code: string): (r: seq<int>)
    ensures |r| == |code|
  {
    if code == [] then [] else [if code[0] == '0' then 0 else 1] + Bits(code[1..])
  }

  /** Following the bits of a path that ends on a leaf emits that leaf's
      symbol, and the cursor is back on the root for what follows. */
  lemma {:induction false} DecodeLeafPath(root: Tree, curr: Tree, c: string, rest: seq<int>)
    requires Decodable(root) && Decodable(curr) && IsBinary(c)
    requires At(curr, c).Node? && At(curr, c).IsLeaf()
    ensures DecodeFrom(root, curr, Bits(c) + rest) == [At(curr, c).value] + Decode(root, rest)
    decreases |c|
  {
    var bits := Bits(c) + rest;
    assert bits[1..] == Bits(c[1..]) + rest;
    var next := Step(curr, bits[0]);
    assert next == At(curr, [c[0]]) && At(curr, c) == At(next, c[1..]);
    if next.IsLeaf() {
      assert c[1..] == [] by {
        if c[1..] != [] {
          AtNil(c[2..]);
        }
      }
    } else {
      assert IsBinary(c[1..]) by {
        forall i | 0 <= i < |c[1..]| ensures c[1..][i] == '0' || c[1..][i] == '1' {
          assert c[1..][i] == c[i + 1];
        }
      }
      DecodeLeafPath(root, next, c[1..], rest);
    }
  }

  /** Following the bits of a path that ends on an internal node emits
      nothing: trailing bits that stop mid-tree are dropped silently. */
  lemma {:induction false} DecodeInternalPath(root: Tree, curr: Tree, c: string)
    requires Decodable(root) && Decodable(curr) && IsBinary(c)
    requires At(curr, c).Node? && !At(curr, c).IsLeaf()
    ensures DecodeFrom(root, curr, Bits(c)) == []
    decreases |c|
  {
    if c != [] {
      var bits := Bits(c);
      assert bits[1..] == Bits(c[1..]);
      var next := Step(curr, bits[0]);
      assert next == At(curr, [c[0]]) && At(curr, c) == At(next, c[1..]);
      if next.IsLeaf() {
        AtNil(c[2..]);
      } else {
        assert IsBinary(c[1..]) by {
          forall i | 0 <= i < |c[1..]| ensures c[1..][i] == '0' || c[1..][i] == '1' {
            assert c[1..][i] == c[i + 1];
          }
        }
        DecodeInternalPath(root, next, c[1..]);
      }
    }
  }

  /** The index of the first record of `table` for symbol `s`, or |table|
      when there is none. */
  function IndexOf(table: seq<Entry>, s: nat): (k: nat)
    ensures k <= |table|
    ensures k < |table| ==> table[k].value == s
    ensures k == |table| <==> forall i :: 0 <= i < |table| ==> table[i].value != s
  {
    if table == [] then 0
    else if table[0].value == s then 0
    else 1 + IndexOf(table[1..], s)
  }

  /** A reference encoder: each symbol of the message is replaced by the bits
      of its first code in the table. */
  function Encode(table: seq<Entry>, message: seq<nat>): seq<int>
    requires forall i :: 0 <= i < |message| ==> IndexOf(table, message[i]) < |table|
  {
    if message == [] then []
    else Bits(table[IndexOf(table, message[0])].code) + Encode(table, message[1..])
  }

  /** Every record's code is a '0'/'1' path from the root to a leaf that
      holds the record's symbol. */
  predicate CodesLeadToLeaves(root: Tree, table: seq<Entry>)
  {
    forall i :: 0 <= i < |table| ==>
      IsBinary(table[i].code) && At(root, table[i].code).Node? && At(root, table[i].code).IsLeaf() &&
      At(root, table[i].code).value == table[i].value
  }

  /** translate inverts an encoding by any table whose codes lead to leaves
      holding their symbols: the bits of the codes of s1..sk, followed by
      any bits that stop mid-tree, decode to exactly s1..sk. */
  lemma {:induction false} DecodeEncodeCodes(root: Tree, table: seq<Entry>, message: seq<nat>, tail: string)
    requires Decodable(root) && CodesLeadToLeaves(root, table)
    requires forall i :: 0 <= i < |message| ==> IndexOf(table, message[i]) < |table|
    requires IsBinary(tail) && At(root, tail).Node? && !At(root, tail).IsLeaf()
    ensures Decode(root, Encode(table, message) + Bits(tail)) == message
    decreases |message|
  {
    if message == [] {
      assert Encode(table, message) + Bits(tail) == Bits(tail);
      DecodeInternalPath(root, root, tail);
    } else {
      var code := table[IndexOf(table, message[0])].code;
      var rest := Encode(table, message[1..]) + Bits(tail);
      assert Encode(table, message) + Bits(tail) == Bits(code) + rest;
      DecodeLeafPath(root, root, code, rest);
      DecodeEncodeCodes(root, table, message[1..], tail);
    }
  }

  /** translate inverts the encoding by the saved codes. */
  lemma DecodeEncode(root: Tree, message: seq<nat>, tail: string)
    requires Decodable(root)
    requires forall i :: 0 <= i < |message| ==> IndexOf(Save(root), message[i]) < |Save(root)|
    requires IsBinary(tail) && At(root, tail).Node? && !At(root, tail).IsLeaf()
    ensures Decode(root, Encode(Save(root), message) + Bits(tail)) == message
  {
    DecodeEncodeCodes(root, Save(root), message, tail);
  }

  /** Decoding only looks at the shape and the leaf symbols: a tree and its
      stripped copy decode every stream alike. */
  lemma {:induction false} DecodeFromStrip(root: Tree, curr: Tree, bits: seq<int>)
    requires Decodable(root) && Decodable(curr)
    ensures Decodable(Strip(root)) && Decodable(Strip(curr))
    ensures DecodeFrom(Strip(root), Strip(curr), bits) == DecodeFrom(root, curr, bits)
    decreases |bits|
  {
    StripShape(root);
    StripShape(curr);
    if bits != [] {
      var next := Step(curr, bits[0]);
      StripStep(curr, bits[0]);
      if next.IsLeaf() {
        DecodeFromStrip(root, root, bits[1..]);
      } else {
        DecodeFromStrip(root, next, bits[1..]);
      }
    }
  }

  lemma StripStep(curr: Tree, bit: int)
    requires Decodable(curr)
    ensures Step(curr, bit).Node? && Full(Step(curr, bit))
    ensures Step(Strip(curr), bit) == Strip(Step(curr, bit))
    ensures Strip(Step(curr, bit)).IsLeaf() == Step(curr, bit).IsLeaf()
    ensures Step(curr, bit).IsLeaf() ==> Strip(Step(curr, bit)).value == Step(curr, bit).value
  {
    StripShape(curr);
    StripShape(Step(curr, bit));
  }

  lemma {:induction false} StripShape(t: Tree)
    requires Full(t) && t.Node?
    ensures Full(Strip(t)) && Strip(t).Node? && Strip(t).IsLeaf() == t.IsLeaf()
    ensures Strip(t).left == Strip(t.left) && Strip(t).right == Strip(t.right)
    ensures t.IsLeaf() ==> Strip(t).value == t.value
    decreases t
  {
    if !t.IsLeaf() {
      StripShape(t.left);
      StripShape(t.right);
    }
  }

  /** The tree restored from a saved table decodes every stream exactly as
      the tree that was saved. */
  lemma RestoredDecodesAlike(t: Tree, bits: seq<int>)
    requires Decodable(t)
    ensures Decodable(Restore(Save(t)))
    ensures Decode(Restore(Save(t)), bits) == Decode(t, bits)
  {
    SaveRestore(t);
    DecodeFromStrip(t, t, bits);
  }

  /** The table {0: "0", 1: "10", 2: "11"} restored and fed 0 10 11 0
      yields 0, 1, 2, 0; a lone 1 stops on an internal node and yields
      nothing. */
  lemma {:induction false} DecodeExample()
    ensures Decodable(Restore([Entry(0, "0"), Entry(1, "10"), Entry(2, "11")]))
    ensures Decode(Restore([Entry(0, "0"), Entry(1, "10"), Entry(2, "11")]), [0, 1, 0, 1, 1, 0]) == [0, 1, 2, 0]
    ensures Decode(Restore([Entry(0, "0"), Entry(1, "10"), Entry(2, "11")]), [1]) == []
  {
    var t := Restore([Entry(0, "0"), Entry(1, "10"), Entry(2, "11")]);
    var leaf0, leaf1, leaf2 := Node(0, 0, Nil, Nil), Node(1, 0, Nil, Nil), Node(2, 0, Nil, Nil);
    var inner := Node(0, 0, leaf1, leaf2);
    assert t == Node(0, 0, leaf0, inner);
    var bits := [0, 1, 0, 1, 1, 0];
    assert bits[1..] == [1, 0, 1, 1, 0] && bits[2..] == [0, 1, 1, 0];
    assert bits[3..] == [1, 1, 0] && bits[4..] == [1, 0] && bits[5..] == [0] && bits[6..] == [];
    assert DecodeFrom(t, t, bits[6..]) == [];
    assert DecodeFrom(t, t, bits[5..]) == [0];
    assert DecodeFrom(t, inner, bits[4..]) == [2, 0];
    assert DecodeFrom(t, t, bits[3..]) == [2, 0];
    assert DecodeFrom(t, inner, bits[2..]) == [1, 2, 0];
    assert DecodeFrom(t, t, bits[1..]) == [1, 2, 0];
    assert [1][1..] == [];
  }
}
