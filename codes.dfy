/**
 * `build_codes`: the code of a leaf is the path from the root to it, `0`
 * for a step to the left child and `1` for a step to the right one.
 */
module Codes {
  import opened BitStrings
  import opened HuffmanTree

  /** Byte value to code. */
  type CodeTable = map<Byte, Bits>

  /** The code table of the subtree `t` reached by the path `prefix`. */
  function CodeMap(t: Node, prefix: Bits): (codes: CodeTable)
    ensures forall b :: b in codes <==> b in Leaves(t)
    ensures forall b :: b in codes ==> prefix <= codes[b]
    ensures t.Merged? ==> forall b :: b in codes ==> |codes[b]| > |prefix|
  {
    match t
    case Leaf(c, _) => map[c := prefix]
    case Merged(_, l, r) => CodeMap(l, prefix + [false]) + CodeMap(r, prefix + [true])
  }

  /** No code is a prefix of the code of another byte value. */
  ghost predicate PrefixFree(codes: CodeTable) {
    forall a, b :: a in codes && b in codes && a != b ==> !(codes[a] <= codes[b])
  }

  /**
   * The recursive traversal, writing into the shared `code_map`: a leaf
   * stores its path, and every node then visits its left and its right
   * child. A leaf has no children, so those visits return at once.
   */
  method BuildCodes(node: Node, prefix: Bits, codeMap: CodeTable) returns (m: CodeTable)
    ensures m == codeMap + CodeMap(node, prefix)
    decreases node
  {
    m := codeMap;
    match node
    case Leaf(c, _) =>
      m := m[c := prefix];
    case Merged(_, l, r) =>
      m := BuildCodes(l, prefix + [false], m);
      m := BuildCodes(r, prefix + [true], m);
  }

  /** The codes of a tree with distinct leaves are prefix-free. */
  lemma {:induction false} CodeMapPrefixFree(t: Node, prefix: Bits)
    requires UniqueLeaves(t)
    ensures PrefixFree(CodeMap(t, prefix))
  {
    match t
    case Leaf(_, _) =>
    case Merged(_, l, r) =>
      var p0, p1 := prefix + [false], prefix + [true];
      var left, right := CodeMap(l, p0), CodeMap(r, p1);
      var codes := CodeMap(t, prefix);
      UniqueChildren(t);
      CodeMapPrefixFree(l, p0);
      CodeMapPrefixFree(r, p1);
      forall a, b | a in codes && b in codes && a != b ensures !(codes[a] <= codes[b]) {
        if a in left && b in left {
          assert codes[a] == left[a] && codes[b] == left[b];
        } else if a in right && b in right {
        } else if a in left {
          // the codes part at position |prefix|: 0 for a, 1 for b
          assert codes[a] == left[a] && codes[b] == right[b];
          assert left[a][|prefix|] == p0[|prefix|];
          assert right[b][|prefix|] == p1[|prefix|];
        } else {
          assert codes[a] == right[a] && codes[b] == left[b];
          assert right[a][|prefix|] == p1[|prefix|];
          assert left[b][|prefix|] == p0[|prefix|];
        }
      }
  }

  /**
   * What `compress` relies on in its code table: one code for each distinct
   * byte value of the data, no code a prefix of another, and the empty code
   * exactly when the data has a single distinct byte value.
   */
  ghost predicate ValidCodeTable(codes: CodeTable, data: seq<Byte>) {
    && (forall b :: b in codes <==> b in data)
    && PrefixFree(codes)
    && (forall b :: b in codes ==> (codes[b] == [] <==> codes.Keys == {b}))
  }

  /** The code table of a tree built for `data` is valid for `data`. */
  lemma TreeCodeTable(t: Node, data: seq<Byte>)
    requires UniqueLeaves(t)
    requires forall b :: b in Leaves(t) <==> b in data
    ensures ValidCodeTable(CodeMap(t, []), data)
  {
    var codes := CodeMap(t, []);
    CodeMapPrefixFree(t, []);
    if t.Merged? {
      MergedHasTwoSymbols(t);
      var x, y :| x in Leaves(t) && y in Leaves(t) && x != y;
      forall b | b in codes ensures codes[b] != [] && codes.Keys != {b} {
        assert x in codes.Keys && y in codes.Keys;
      }
    }
  }

  /** Distinct byte values have distinct codes, so inverting the table loses nothing. */
  lemma PrefixFreeInjective(codes: CodeTable)
    requires PrefixFree(codes)
    ensures forall a, b :: a in codes && b in codes && codes[a] == codes[b] ==> a == b
  {
  }
}
