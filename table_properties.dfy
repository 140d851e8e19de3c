/** What insertCode does to a tree, and why saving a full tree and restoring
    the table gives back the same tree, up to the weights and internal
    symbols, which the table does not record. */
module TableProperties {
  import opened HuffmanNode
  import opened Table

  // ---------------------------------------------------------------------
  // insertCode

  lemma AtNil(p: string)
    ensures At(Nil, p) == Nil
  {
  }

  /** After inserting a code of '0'/'1' characters, the node that code
      reaches exists and holds the symbol; a node that was already there is
      reused, keeping its children and weight, and only its symbol is
      overwritten (an earlier symbol there is not detected). */
  lemma {:induction false} InsertCodeStores(t: Tree, v: nat, c: string)
    requires IsBinary(c)
    ensures At(InsertCode(t, v, c), c).Node? && At(InsertCode(t, v, c), c).value == v
    ensures At(t, c).Node? ==> At(InsertCode(t, v, c), c) == At(t, c).(value := v)
    decreases |c|
  {
    if c != [] {
      var n := if t.Nil? then Placeholder else t;
      assert IsBinary(c[1..]) by {
        forall i | 0 <= i < |c[1..]| ensures c[1..][i] == '0' || c[1..][i] == '1' {
          assert c[1..][i] == c[i + 1];
        }
      }
      if t.Nil? {
        AtNil(c[1..]);
      }
      if c[0] == '0' {
        InsertCodeStores(n.left, v, c[1..]);
      } else {
        InsertCodeStores(n.right, v, c[1..]);
      }
    }
  }

  /** Every path that is not a prefix of the inserted code reaches the same
      node as before: nothing off the code's path changes. */
  lemma {:induction false} InsertCodeFrame(t: Tree, v: nat, c: string, p: string)
    requires !(p <= c)
    ensures At(InsertCode(t, v, c), p) == At(t, p)
    decreases |c|
  {
    var n := if t.Nil? then Placeholder else t;
    AtNil(p[1..]);
    if c != [] && p[0] == c[0] && (c[0] == '0' || c[0] == '1') {
      assert !(p[1..] <= c[1..]);
      if c[0] == '0' {
        InsertCodeFrame(n.left, v, c[1..], p[1..]);
      } else {
        InsertCodeFrame(n.right, v, c[1..], p[1..]);
      }
    }
  }

  /** A node that already existed strictly above the end of the code keeps
      its symbol and weight: existing nodes on the path are reused. */
  lemma {:induction false} InsertCodeReuses(t: Tree, v: nat, c: string, p: string)
    requires p < c && At(t, p).Node?
    ensures At(InsertCode(t, v, c), p).Node?
    ensures At(InsertCode(t, v, c), p).value == At(t, p).value
    ensures At(InsertCode(t, v, c), p).weight == At(t, p).weight
    decreases |c|
  {
    if p != [] {
      assert p[1..] < c[1..];
      if p[0] == '0' {
        InsertCodeReuses(t.left, v, c[1..], p[1..]);
      } else if p[0] == '1' {
        InsertCodeReuses(t.right, v, c[1..], p[1..]);
      }
    }
  }

  /** A code holding a character other than '0' and '1' stores no symbol:
      the result does not depend on the symbol at all. */
  lemma {:induction false} InsertCodeIgnoresBadCode(t: Tree, v: nat, w: nat, c: string)
    requires !IsBinary(c)
    ensures InsertCode(t, v, c) == InsertCode(t, w, c)
    decreases |c|
  {
    var n := if t.Nil? then Placeholder else t;
    if c[0] == '0' || c[0] == '1' {
      assert !IsBinary(c[1..]) by {
        var i :| 0 <= i < |c| && c[i] != '0' && c[i] != '1';
        assert c[1..][i - 1] == c[i];
      }
      if c[0] == '0' {
        InsertCodeIgnoresBadCode(n.left, v, w, c[1..]);
      } else {
        InsertCodeIgnoresBadCode(n.right, v, w, c[1..]);
      }
    }
  }

  /** A code whose '0'/'1' prefix p is followed by any other character
      still creates every missing node along p: the node p reaches is the
      one that was there, or a fresh placeholder for symbol 0 where there
      was none. */
  lemma {:induction false} InsertCodeStopsAtBadCharacter(t: Tree, v: nat, p: string, rest: string)
    requires IsBinary(p) && rest != [] && rest[0] != '0' && rest[0] != '1'
    ensures At(InsertCode(t, v, p + rest), p) == if At(t, p).Nil? then Placeholder else At(t, p)
    decreases |p|
  {
    var n := if t.Nil? then Placeholder else t;
    if p == [] {
      assert p + rest == rest;
    } else {
      assert (p + rest)[0] == p[0] && (p + rest)[1..] == p[1..] + rest;
      assert IsBinary(p[1..]) by {
        forall i | 0 <= i < |p[1..]| ensures p[1..][i] == '0' || p[1..][i] == '1' {
          assert p[1..][i] == p[i + 1];
        }
      }
      if t.Nil? {
        AtNil(p[1..]);
      }
      if p[0] == '0' {
        InsertCodeStopsAtBadCharacter(n.left, v, p[1..], rest);
      } else {
        InsertCodeStopsAtBadCharacter(n.right, v, p[1..], rest);
      }
    }
  }

  /** A record with the code "0x" leaves a placeholder leaf for symbol 0 at
      "0", which save then writes out as if it were a symbol of the code. */
  lemma BadCodeExample()
    ensures Restore([Entry(5, "0x"), Entry(6, "1")]) == Node(0, 0, Placeholder, Node(6, 0, Nil, Nil))
    ensures Save(Restore([Entry(5, "0x"), Entry(6, "1")])) == [Entry(0, "0"), Entry(6, "1")]
  {
    var first := InsertCode(Placeholder, 5, "0x");
    assert "0x"[1..] == "x";
    assert first == Node(0, 0, Placeholder, Nil);
    assert "1"[1..] == "";
    assert InsertCode(first, 6, "1") == Node(0, 0, Placeholder, Node(6, 0, Nil, Nil));
    assert [Entry(5, "0x"), Entry(6, "1")][1..] == [Entry(6, "1")];
    assert "" + "0" == "0" && "" + "1" == "1";
  }

  // ---------------------------------------------------------------------
  // save

  /** No record's code is a prefix of another record's code. */
  predicate PrefixFree(table: seq<Entry>)
  {
    forall i, j :: 0 <= i < |table| && 0 <= j < |table| && i != j ==> !(table[i].code <= table[j].code)
  }

  /** The codes save writes for one subtree form a prefix code. */
  lemma {:induction false} SaveFromPrefixFree(node: Tree, code: string)
    requires Full(node) && node.Node?
    ensures PrefixFree(SaveFrom(node, code))
    decreases node
  {
    if !node.IsLeaf() {
      var a := SaveFrom(node.left, code + "0");
      var b := SaveFrom(node.right, code + "1");
      SaveFromPrefixFree(node.left, code + "0");
      SaveFromPrefixFree(node.right, code + "1");
      var t := a + b;
      forall i, j | 0 <= i < |t| && 0 <= j < |t| && i != j
        ensures !(t[i].code <= t[j].code)
      {
        if (i < |a|) != (j < |a|) {
          var k := |code|;
          var x, y := t[i].code, t[j].code;
          assert (code + "0")[k] == '0' && (code + "1")[k] == '1';
          if i < |a| {
            assert code + "0" <= x && code + "1" <= y;
          } else {
            assert code + "1" <= x && code + "0" <= y;
          }
          assert x[k] != y[k];
        } else if i < |a| {
          assert t[i] == a[i] && t[j] == a[j];
        } else {
          assert t[i] == b[i - |a|] && t[j] == b[j - |a|];
        }
      }
    }
  }

  /** save writes a prefix code. */
  lemma SavePrefixFree(root: Tree)
    requires Full(root)
    ensures PrefixFree(Save(root))
  {
    if root.Node? {
      SaveFromPrefixFree(root, "");
    }
  }

  // ---------------------------------------------------------------------
  // save, then restore

  /** What a restored tree looks like: the same shape and leaf symbols,
      weight 0 everywhere and symbol 0 on internal nodes. */
  function Strip(t: Tree): Tree
  {
    match t
    case Nil => Nil
    case Node(v, _, l, r) => if t.IsLeaf() then Node(v, 0, Nil, Nil) else Node(0, 0, Strip(l), Strip(r))
  }

  /** The table with `prefix` put in front of every code. */
  function Prepend(prefix: string, table: seq<Entry>): (r: seq<Entry>)
  {
    seq(|table|, i requires 0 <= i < |table| => Entry(table[i].value, prefix + table[i].code))
  }

  lemma PrependAppend(prefix: string, a: seq<Entry>, b: seq<Entry>)
    ensures Prepend(prefix, a + b) == Prepend(prefix, a) + Prepend(prefix, b)
  {
    var x, y := Prepend(prefix, a + b), Prepend(prefix, a) + Prepend(prefix, b);
    assert |x| == |y|;
    forall i | 0 <= i < |x| ensures x[i] == y[i] {
      if i < |a| { assert (a + b)[i] == a[i]; } else { assert (a + b)[i] == b[i - |a|]; }
    }
  }

  lemma PrependTwice(p: string, q: string, a: seq<Entry>)
    ensures Prepend(p, Prepend(q, a)) == Prepend(p + q, a)
  {
    var x, y := Prepend(p, Prepend(q, a)), Prepend(p + q, a);
    forall i | 0 <= i < |a| ensures x[i] == y[i] {
      assert p + (q + a[i].code) == (p + q) + a[i].code;
    }
  }

  /** The codes save writes for a subtree are its codes from that subtree's
      own root, behind the path that leads to it. */
  lemma {:induction false} SaveFromShift(node: Tree, code: string)
    requires Full(node) && node.Node?
    ensures SaveFrom(node, code) == Prepend(code, SaveFrom(node, ""))
    decreases node
  {
    if node.IsLeaf() {
      assert code + "" == code;
    } else {
      var l, r := node.left, node.right;
      SaveFromShift(l, code + "0");
      SaveFromShift(l, "0");
      SaveFromShift(r, code + "1");
      SaveFromShift(r, "1");
      assert "" + "0" == "0" && "" + "1" == "1";
      var a, b := SaveFrom(l, ""), SaveFrom(r, "");
      PrependAppend(code, Prepend("0", a), Prepend("1", b));
      PrependTwice(code, "0", a);
      PrependTwice(code, "1", b);
    }
  }

  lemma {:induction false} InsertAllAppend(node: Tree, a: seq<Entry>, b: seq<Entry>)
    ensures InsertAll(node, a + b) == InsertAll(InsertAll(node, a), b)
    decreases |a|
  {
    if a != [] {
      assert (a + b)[1..] == a[1..] + b;
      InsertAllAppend(InsertCode(node, a[0].value, a[0].code), a[1..], b);
    } else {
      assert a + b == b;
    }
  }

  /** Records whose codes all start with `bit` only change the child that
      bit names. */
  lemma {:induction false} InsertAllBranch(v: nat, w: int, l: Tree, r: Tree, bit: char, table: seq<Entry>)
    requires bit == '0' || bit == '1'
    ensures InsertAll(Node(v, w, l, r), Prepend([bit], table)) ==
            if bit == '0' then Node(v, w, InsertAll(l, table), r) else Node(v, w, l, InsertAll(r, table))
    decreases |table|
  {
    if table != [] {
      var p := Prepend([bit], table);
      var e := table[0];
      assert p[0].code[1..] == e.code;
      assert p[1..] == Prepend([bit], table[1..]);
      if bit == '0' {
        InsertAllBranch(v, w, InsertCode(l, e.value, e.code), r, bit, table[1..]);
      } else {
        InsertAllBranch(v, w, l, InsertCode(r, e.value, e.code), bit, table[1..]);
      }
    }
  }

  /** Inserting a table of a full subtree into an empty slot or a fresh
      placeholder builds that subtree stripped of its weights. */
  lemma {:induction false} InsertAllSaved(t: Tree, base: Tree)
    requires Full(t) && t.Node?
    requires base == Nil || base == Placeholder
    ensures InsertAll(base, SaveFrom(t, "")) == Strip(t)
    decreases t
  {
    if !t.IsLeaf() {
      var l, r := t.left, t.right;
      var a, b := SaveFrom(l, ""), SaveFrom(r, "");
      SaveFromShift(l, "0");
      SaveFromShift(r, "1");
      assert "" + "0" == "0" && "" + "1" == "1";
      var pa, pb := Prepend("0", a), Prepend("1", b);
      assert SaveFrom(t, "") == pa + pb;
      InsertAllAppend(base, pa, pb);
      FullShape(l);
      assert InsertAll(base, pa) == InsertAll(Placeholder, pa) by {
        assert pa != [];
      }
      InsertAllBranch(0, 0, Nil, Nil, '0', a);
      InsertAllSaved(l, Nil);
      InsertAllBranch(0, 0, Strip(l), Nil, '1', b);
      InsertAllSaved(r, Nil);
    }
  }

  lemma {:induction false} SaveFromStrip(t: Tree, code: string)
    requires Full(t) && t.Node?
    ensures Full(Strip(t)) && Strip(t).Node? && Strip(t).IsLeaf() == t.IsLeaf()
    ensures SaveFrom(Strip(t), code) == SaveFrom(t, code)
    decreases t
  {
    if !t.IsLeaf() {
      SaveFromStrip(t.left, code + "0");
      SaveFromStrip(t.right, code + "1");
    }
  }

  /** Restoring the table saved from a non-empty full tree rebuilds that
      tree without its weights and internal symbols; saving the restored
      tree writes exactly the same table again. */
  lemma SaveRestore(t: Tree)
    requires Full(t) && t.Node?
    ensures Restore(Save(t)) == Strip(t)
    ensures Full(Restore(Save(t)))
    ensures Save(Restore(Save(t))) == Save(t)
  {
    InsertAllSaved(t, Placeholder);
    SaveFromStrip(t, "");
  }

  /** An empty table restores to the placeholder root, a leaf for symbol 0,
      and not to an empty tree: saving it writes one record. */
  lemma RestoreEmptyTable()
    ensures Restore([]) == Node(0, 0, Nil, Nil)
    ensures Save(Restore([])) == [Entry(0, "")]
  {
  }
}
