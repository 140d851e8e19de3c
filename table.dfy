/** The code table: rebuilding a tree from (symbol, code) pairs one insertion
    at a time (insertCode), and writing a tree out as such pairs (save). */
module Table {
  import opened HuffmanNode

  /** One record of the code table: a symbol and its code of '0'/'1'
      characters. */
  datatype Entry = Entry(value: nat, code: string)

  /** A node made by the no-argument HuffmanNode constructor: symbol 0,
      weight 0, no children. */
  const Placeholder: Tree := Node(0, 0, Nil, Nil)

  /** insertCode: creates the node if it is null, then either stores the
      symbol on it (code exhausted) or descends into the child the first
      character names ('0' left, '1' right), creating it if absent. Any other
      character silently ends the descent. Returns the (possibly new) node. */
  function InsertCode(node: Tree, value: nat, code: string): (r: Tree)
    ensures r.Node?
    decreases |code|
  {
    var n := if node.Nil? then Placeholder else node;
    if code == [] then n.(value := value)
    else if code[0] == '0' then n.(left := InsertCode(n.left, value, code[1..]))
    else if code[0] == '1' then n.(right := InsertCode(n.right, value, code[1..]))
    else n
  }

  /** Inserting every record of the table, in order. */
  function InsertAll(node: Tree, table: seq<Entry>): Tree
    decreases |table|
  {
    if table == [] then node
    else InsertAll(InsertCode(node, table[0].value, table[0].code), table[1..])
  }

  /** The tree the table constructor builds: the placeholder root with every
      record inserted. */
  function Restore(table: seq<Entry>): Tree
  {
    InsertAll(Placeholder, table)
  }

  /** The save helper: one record per leaf below `node`, left before right,
      whose code is `code` followed by the path from `node` to the leaf. */
  function SaveFrom(node: Tree, code: string): (table: seq<Entry>)
    requires Full(node) && node.Node?
    ensures |table| == |Leaves(node)|
    ensures forall i :: 0 <= i < |table| ==> table[i].value == Leaves(node)[i]
    ensures forall i :: 0 <= i < |table| ==> code <= table[i].code
    ensures InTreeOrder(table)
    decreases node
  {
    if node.IsLeaf() then [Entry(node.value, code)]
    else
      var a, b := SaveFrom(node.left, code + "0"), SaveFrom(node.right, code + "1");
      ExtendedCodes(code, '0', a);
      ExtendedCodes(code, '1', b);
      LeftThenRight(code, a, b);
      a + b
  }

  /** Code `a` leads to a leaf left of the one code `b` leads to: the two
      agree up to a position where `a` goes left ('0') and `b` goes right
      ('1'). */
  predicate LeftOf(a: string, b: string)
  {
    exists k :: 0 <= k < |a| && k < |b| && a[..k] == b[..k] && a[k] == '0' && b[k] == '1'
  }

  /** Records listed in the left-to-right order of the leaves their codes
      lead to. */
  predicate InTreeOrder(table: seq<Entry>)
  {
    forall i, j :: 0 <= i < j < |table| ==> LeftOf(table[i].code, table[j].code)
  }

  /** The records of the left subtree, then those of the right subtree, are
      in tree order when each part is. */
  lemma LeftThenRight(code: string, a: seq<Entry>, b: seq<Entry>)
    requires InTreeOrder(a) && InTreeOrder(b)
    requires forall i :: 0 <= i < |a| ==> code + "0" <= a[i].code
    requires forall j :: 0 <= j < |b| ==> code + "1" <= b[j].code
    ensures InTreeOrder(a + b)
  {
    var t := a + b;
    forall i, j | 0 <= i < j < |t| ensures LeftOf(t[i].code, t[j].code) {
      if j < |a| {
        assert t[i] == a[i] && t[j] == a[j];
      } else if i >= |a| {
        assert t[i] == b[i - |a|] && t[j] == b[j - |a|];
      } else {
        var x, y, k := a[i].code, b[j - |a|].code, |code|;
        assert t[i].code == x && t[j].code == y;
        assert x[..k + 1] == code + "0" && y[..k + 1] == code + "1";
        assert x[..k] == x[..k + 1][..k] && y[..k] == y[..k + 1][..k];
        assert x[k] == x[..k + 1][k] && y[k] == y[..k + 1][k];
        assert (code + "0")[..k] == code && (code + "1")[..k] == code;
        assert x[..k] == y[..k] && x[k] == '0' && y[k] == '1';
      }
    }
  }

  /** Codes that extend `code` followed by one more character extend `code`. */
  lemma ExtendedCodes(code: string, bit: char, table: seq<Entry>)
    requires forall i :: 0 <= i < |table| ==> code + [bit] <= table[i].code
    ensures forall i :: 0 <= i < |table| ==> code <= table[i].code
  {
    forall i | 0 <= i < |table| ensures code <= table[i].code {
      assert (code + [bit])[..|code|] == code;
    }
  }

  /** save: nothing for an empty tree, otherwise one record per leaf. The
      tree must have no one-child node. */
  function Save(root: Tree): (table: seq<Entry>)
    requires Full(root)
    ensures |table| == |Leaves(root)|
    ensures forall i :: 0 <= i < |table| ==> table[i].value == Leaves(root)[i]
    ensures forall i :: 0 <= i < |table| ==> IsBinary(table[i].code)
    ensures forall i :: 0 <= i < |table| ==>
              At(root, table[i].code).Node? && At(root, table[i].code).IsLeaf() &&
              At(root, table[i].code).value == table[i].value
    ensures root.Node? && root.IsLeaf() ==> table == [Entry(root.value, "")]
    ensures InTreeOrder(table)
  {
    if root.Nil? then []
    else
      var table := SaveFrom(root, "");
      forall i | 0 <= i < |table|
        ensures IsBinary(table[i].code)
        ensures At(root, table[i].code).Node? && At(root, table[i].code).IsLeaf()
        ensures At(root, table[i].code).value == table[i].value
      {
        SaveReachesLeaf(root, "", table, i);
        assert table[i].code[0..] == table[i].code;
      }
      table
  }

  /** The code of the i-th record leads to a leaf holding the i-th symbol. */
  lemma {:induction false} SaveReachesLeaf(node: Tree, code: string, table: seq<Entry>, i: nat)
    requires Full(node) && node.Node?
    requires table == SaveFrom(node, code) && i < |table|
    ensures IsBinary(table[i].code[|code|..])
    ensures At(node, table[i].code[|code|..]).Node? && At(node, table[i].code[|code|..]).IsLeaf()
    ensures At(node, table[i].code[|code|..]).value == table[i].value
    decreases node
  {
    if node.IsLeaf() {
      assert table[i].code[|code|..] == [];
    } else {
      var a := SaveFrom(node.left, code + "0");
      var b := SaveFrom(node.right, code + "1");
      var c := table[i].code;
      if i < |a| {
        SaveReachesLeaf(node.left, code + "0", a, i);
        assert c[|code|..][1..] == c[|code| + 1..];
        assert c[|code|] == '0' by { assert (code + "0")[|code|] == '0'; }
      } else {
        SaveReachesLeaf(node.right, code + "1", b, i - |a|);
        assert c[|code|..][1..] == c[|code| + 1..];
        assert c[|code|] == '1' by { assert (code + "1")[|code|] == '1'; }
      }
    }
  }
}
