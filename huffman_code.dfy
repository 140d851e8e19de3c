/** The HuffmanCode object: a root reference set by one of two constructors,
    and translate, which walks the tree with a cursor. */
module Code {
  import opened HuffmanNode
  import opened Build
  import opened Table
  import opened Decoding

  class HuffmanCode {
    /** The root of the code tree; Nil when no symbol has a positive count. */
    var root: Tree

    /** The priority queue before each round of the greedy merge and after
        the last one; empty for a code read back from a table. */
    ghost var rounds: seq<seq<Tree>>

    /** Greedy construction: a leaf per index with a positive frequency goes
        into a min-queue; the two lightest nodes are merged, their sum as the
        weight, until at most one node is left, which becomes the root.
        Symbols are Java chars, so the table has at most 65536 entries. */
    constructor FromFrequencies(frequencies: array<int>)
      requires frequencies.Length <= 0x1_0000
      ensures GreedyRoot(root, frequencies[..])
      ensures GreedyTrace(rounds) && rounds[0] == InitialQueue(frequencies[..])
      ensures rounds[|rounds| - 1] == if root.Nil? then [] else [root]
    {
      var f := frequencies[..];
      var pq: seq<Tree> := [];
      var i := 0;
      while i < frequencies.Length
        invariant 0 <= i <= frequencies.Length
        invariant Scanned(pq, f, i)
      {
        ScanStep(pq, f, i);
        if frequencies[i] > 0 {
          pq := pq + [Node(i, frequencies[i], Nil, Nil)];
        }
        i := i + 1;
      }
      ScanDone(pq, f);
      var top;
      ghost var trace;
      top, trace := MergeAll(pq, f);
      root := top;
      rounds := trace;
      assert frequencies[..] == f;
    }

    /** Restoring a saved table: the root starts as a placeholder node and
        every (symbol, code) record is inserted in order. Symbols are Java
        chars. */
    constructor FromTable(table: seq<Entry>)
      requires forall i :: 0 <= i < |table| ==> table[i].value < 0x1_0000
      ensures root == Restore(table) && rounds == []
    {
      var top := Placeholder;
      var i := 0;
      while i < |table|
        invariant 0 <= i <= |table|
        invariant InsertAll(top, table[i..]) == Restore(table)
      {
        assert table[i..][1..] == table[i + 1..];
        top := InsertCode(top, table[i].value, table[i].code);
        i := i + 1;
      }
      root := top;
      rounds := [];
    }

    /** translate: a cursor starts on the root and follows each bit; on a
        leaf the symbol's low byte is written and the cursor goes back to the
        root. The tree must have two children below every internal node. */
    method Translate(bits: seq<int>) returns (output: seq<nat>)
      requires Decodable(root)
      ensures output == LowBytes(Decode(root, bits))
    {
      var curr := root;
      output := [];
      var i := 0;
      while i < |bits|
        invariant 0 <= i <= |bits|
        invariant Decodable(curr)
        invariant output + LowBytes(DecodeFrom(root, curr, bits[i..])) == LowBytes(Decode(root, bits))
      {
        assert bits[i..][1..] == bits[i + 1..];
        var bit := bits[i];
        if bit == 0 {
          curr := curr.left;
        } else if bit == 1 {
          curr := curr.right;
        }
        if curr.IsLeaf() {
          LowBytesCons(curr.value, DecodeFrom(root, root, bits[i + 1..]));
          output := output + [curr.value % 256];
          curr := root;
        }
        i := i + 1;
      }
    }
  }
}
