/** Code assignment (`make_codes`), encoding (the loop of `get_encoded_bytes`)
    and decoding (the loop of `get_decoded_text`), as the functions the
    `Huffman` methods are proved against, with their properties. */
module Codes {
  import opened Frequency
  import opened Tree
  import opened Outcomes

  /** The dictionary writes `make_codes(node, code)` performs, in order, as
      `(character, code)` pairs: `'0'` appended going left, `'1'` going right,
      and at a leaf the path so far, or `"0"` when `single` holds (the
      `len(self.nodeList) == 1` test). */
  function CodeWrites(node: Option<Node>, code: string, single: bool): (ps: seq<(char, string)>)
    ensures node.None? ==> ps == []
    ensures node.Some? ==> |ps| == |LeafEntries(node.value)|
    decreases if node.Some? then Size(node.value) else 0
  {
    match node
    case None => []
    case Some(Leaf(c, _)) => [(c, if single then "0" else code)]
    case Some(Internal(_, l, r)) =>
      CodeWrites(Some(l), code + "0", single) + CodeWrites(Some(r), code + "1", single)
  }

  /** The dictionary after `m[k] = v` for each pair `(k, v)` of `ps`, in order. */
  function ApplyAll<K(==), V>(m: map<K, V>, ps: seq<(K, V)>): map<K, V>
    decreases |ps|
  {
    if ps == [] then m else ApplyAll(m[ps[0].0 := ps[0].1], ps[1..])
  }

  /** The pairs with key and value exchanged: the writes into `reverse_mapping`. */
  function Swap<K, V>(ps: seq<(K, V)>): (r: seq<(V, K)>)
    ensures |r| == |ps|
    ensures forall i :: 0 <= i < |ps| ==> r[i] == (ps[i].1, ps[i].0)
  {
    if ps == [] then [] else [(ps[0].1, ps[0].0)] + Swap(ps[1..])
  }

  predicate UniqueKeys<K(==), V>(ps: seq<(K, V)>) {
    forall i, j :: 0 <= i < j < |ps| ==> ps[i].0 != ps[j].0
  }

  function KeySet<K, V>(ps: seq<(K, V)>): set<K> {
    set i | 0 <= i < |ps| :: ps[i].0
  }

  predicate IsPrefix(a: string, b: string) {
    |a| <= |b| && b[..|a|] == a
  }

  /** No code of `ps` is a prefix of the code of another pair (nor equal to it). */
  predicate PrefixFree(ps: seq<(char, string)>) {
    forall i, j :: 0 <= i < |ps| && 0 <= j < |ps| && i != j ==> !IsPrefix(ps[i].1, ps[j].1)
  }

  /** The node reached from `t` by following the bits of `w`, `'0'` to the left
      and `'1'` to the right: decoding by walking the tree. */
  function Follow(t: Node, w: string): Option<Node> {
    if w == [] then Some(t)
    else match t
      case Leaf(_, _) => None
      case Internal(_, l, r) =>
        if w[0] == '0' then Follow(l, w[1..])
        else if w[0] == '1' then Follow(r, w[1..])
        else None
  }

  /** `reverse_mapping` undoes `codes`, every code is non-empty, and no proper
      prefix of a code is itself a key of `reverse_mapping`. */
  predicate PrefixFreeInverse(codes: map<char, string>, rev: map<string, char>) {
    forall c :: c in codes ==>
      && codes[c] != []
      && codes[c] in rev && rev[codes[c]] == c
      && forall k :: 0 < k < |codes[c]| ==> codes[c][..k] !in rev
  }

  /** The loop of `get_encoded_bytes`: the codes of the characters of `text`,
      concatenated in order, or the KeyError of the first character that has
      no code. */
  function Encode(codes: map<char, string>, text: string): (r: Result<string>)
    ensures r.Ok? <==> forall c :: c in text ==> c in codes
    ensures r.Err? ==> exists i :: (0 <= i < |text| && text[i] !in codes &&
      r.error == KeyError(text[i]) && forall j :: 0 <= j < i ==> text[j] in codes)
  {
    if text == [] then Ok([])
    else if text[0] !in codes then Err(KeyError(text[0]))
    else
      match Encode(codes, text[1..])
      case Ok(bits) => Ok(codes[text[0]] + bits)
      case Err(e) =>
        var i :| 0 <= i < |text[1..]| && text[1..][i] !in codes &&
          e == KeyError(text[1..][i]) && forall j :: 0 <= j < i ==> text[1..][j] in codes;
        assert text[i + 1] == text[1..][i];
        Err(e)
  }

  /** The loop of `get_decoded_text` from buffer `current` on the remaining
      bits: append a bit, and when the buffer is a key of `rev` emit its
      character and empty the buffer. Bits left unmatched at the end are
      dropped. */
  function DecodeFrom(rev: map<string, char>, current: string, bits: string): (r: string)
    ensures |r| <= |bits|
    ensures forall i :: 0 <= i < |r| ==> r[i] in rev.Values
    decreases |bits|
  {
    if bits == [] then []
    else
      var b := current + [bits[0]];
      if b in rev then [rev[b]] + DecodeFrom(rev, [], bits[1..])
      else DecodeFrom(rev, b, bits[1..])
  }

  function Decode(rev: map<string, char>, bits: string): (r: string)
    ensures |r| <= |bits|
    ensures forall i :: 0 <= i < |r| ==> r[i] in rev.Values
  {
    DecodeFrom(rev, [], bits)
  }

  lemma {:induction false} ApplyAllAppend<K, V>(m: map<K, V>, a: seq<(K, V)>, b: seq<(K, V)>)
    ensures ApplyAll(m, a + b) == ApplyAll(ApplyAll(m, a), b)
    decreases |a|
  {
    if a == [] {
      assert a + b == b;
    } else {
      assert (a + b)[1..] == a[1..] + b;
      ApplyAllAppend(m[a[0].0 := a[0].1], a[1..], b);
    }
  }

  lemma SwapAppend<K, V>(a: seq<(K, V)>, b: seq<(K, V)>)
    ensures Swap(a + b) == Swap(a) + Swap(b)
  {
  }

  /** Writes under keys other than `k` leave `m[k]` alone. */
  lemma {:induction false} ApplyAllOther<K, V>(m: map<K, V>, ps: seq<(K, V)>, k: K)
    requires forall i :: 0 <= i < |ps| ==> ps[i].0 != k
    ensures k in ApplyAll(m, ps) <==> k in m
    ensures k in m ==> ApplyAll(m, ps)[k] == m[k]
    decreases |ps|
  {
    if ps != [] {
      ApplyAllOther(m[ps[0].0 := ps[0].1], ps[1..], k);
    }
  }

  /** With distinct keys, the dictionary after the writes maps each key of
      `ps` to its own value and otherwise agrees with `m`. */
  lemma {:induction false} ApplyAllUnique<K, V>(m: map<K, V>, ps: seq<(K, V)>)
    requires UniqueKeys(ps)
    ensures ApplyAll(m, ps).Keys == m.Keys + KeySet(ps)
    ensures forall i :: 0 <= i < |ps| ==> ApplyAll(m, ps)[ps[i].0] == ps[i].1
    decreases |ps|
  {
    if ps != [] {
      var m' := m[ps[0].0 := ps[0].1];
      var tail := ps[1..];
      assert UniqueKeys(tail) by {
        forall i, j | 0 <= i < j < |tail| ensures tail[i].0 != tail[j].0 {
          assert tail[i] == ps[i + 1] && tail[j] == ps[j + 1];
        }
      }
      ApplyAllUnique(m', tail);
      assert forall i :: 0 <= i < |tail| ==> tail[i] == ps[i + 1];
      ApplyAllOther(m', tail, ps[0].0);
      assert KeySet(ps) == {ps[0].0} + KeySet(tail) by {
        forall k | k in KeySet(ps) ensures k in {ps[0].0} + KeySet(tail) {
          var i :| 0 <= i < |ps| && ps[i].0 == k;
          if i > 0 {
            assert tail[i - 1] == ps[i];
          }
        }
      }
    }
  }

  /** The writes of `make_codes` name the leaves of the tree, left to right. */
  lemma {:induction false} CodeWritesLeaves(t: Node, code: string, single: bool)
    ensures |CodeWrites(Some(t), code, single)| == |LeafEntries(t)|
    ensures forall i :: 0 <= i < |CodeWrites(Some(t), code, single)| ==>
      CodeWrites(Some(t), code, single)[i].0 == LeafEntries(t)[i].ch
    decreases Size(t)
  {
    match t
    case Leaf(_, _) =>
    case Internal(_, l, r) =>
      CodeWritesLeaves(l, code + "0", single);
      CodeWritesLeaves(r, code + "1", single);
  }

  /** Outside the single-leaf state every write extends `code`, and below an
      internal node every code is longer than `code`, its next bit being `'0'`
      in the left subtree and `'1'` in the right one. */
  lemma {:induction false} CodeWritesExtend(t: Node, code: string)
    ensures forall i :: 0 <= i < |CodeWrites(Some(t), code, false)| ==>
      && IsPrefix(code, CodeWrites(Some(t), code, false)[i].1)
      && (t.Internal? ==> |CodeWrites(Some(t), code, false)[i].1| > |code|)
    decreases Size(t)
  {
    match t
    case Leaf(_, _) =>
    case Internal(_, l, r) =>
      var a, b := CodeWrites(Some(l), code + "0", false), CodeWrites(Some(r), code + "1", false);
      CodeWritesExtend(l, code + "0");
      CodeWritesExtend(r, code + "1");
      var ps := a + b;
      forall i | 0 <= i < |ps| ensures IsPrefix(code, ps[i].1) && |ps[i].1| > |code| {
        if i < |a| {
          assert ps[i] == a[i] && IsPrefix(code + "0", a[i].1);
          assert a[i].1[..|code|] == (code + "0")[..|code|];
        } else {
          assert ps[i] == b[i - |a|] && IsPrefix(code + "1", b[i - |a|].1);
          assert b[i - |a|].1[..|code|] == (code + "1")[..|code|];
        }
      }
  }

  /** The bit after `code` in a write of the left subtree is `'0'`, in one of
      the right subtree `'1'`. */
  lemma SideBit(l: Node, r: Node, code: string, i: nat)
    requires i < |CodeWrites(Some(l), code + "0", false) + CodeWrites(Some(r), code + "1", false)|
    ensures var a := CodeWrites(Some(l), code + "0", false);
      var ps := a + CodeWrites(Some(r), code + "1", false);
      |ps[i].1| > |code| && ps[i].1[..|code|] == code &&
      ps[i].1[|code|] == (if i < |a| then '0' else '1')
  {
    var a, b := CodeWrites(Some(l), code + "0", false), CodeWrites(Some(r), code + "1", false);
    if i < |a| {
      CodeWritesExtend(l, code + "0");
      assert (a + b)[i] == a[i] && IsPrefix(code + "0", a[i].1);
      PrefixBit(code, '0', a[i].1);
    } else {
      CodeWritesExtend(r, code + "1");
      assert (a + b)[i] == b[i - |a|] && IsPrefix(code + "1", b[i - |a|].1);
      PrefixBit(code, '1', b[i - |a|].1);
    }
  }

  /** A word that starts with `code` and one more bit has that bit right after `code`. */
  lemma PrefixBit(code: string, bit: char, w: string)
    requires IsPrefix(code + [bit], w)
    ensures |w| > |code| && w[..|code|] == code && w[|code|] == bit
  {
    assert w[..|code|] == (code + [bit])[..|code|];
    assert w[|code|] == (code + [bit])[|code|];
  }

  /** Outside the single-leaf state the codes are pairwise prefix-free. */
  lemma {:induction false} CodeWritesPrefixFree(t: Node, code: string)
    ensures PrefixFree(CodeWrites(Some(t), code, false))
    decreases Size(t)
  {
    match t
    case Leaf(_, _) =>
    case Internal(_, l, r) =>
      var a, b := CodeWrites(Some(l), code + "0", false), CodeWrites(Some(r), code + "1", false);
      CodeWritesPrefixFree(l, code + "0");
      CodeWritesPrefixFree(r, code + "1");
      var ps := a + b;
      forall i, j | 0 <= i < |ps| && 0 <= j < |ps| && i != j
        ensures !IsPrefix(ps[i].1, ps[j].1)
      {
        if i < |a| && j < |a| {
          assert ps[i] == a[i] && ps[j] == a[j];
        } else if i >= |a| && j >= |a| {
          assert ps[i] == b[i - |a|] && ps[j] == b[j - |a|];
        } else {
          OppositeSides(l, r, code, i, j);
        }
      }
  }

  /** A code of the left subtree and one of the right subtree differ at the
      bit after `code`, so neither is a prefix of the other. */
  lemma OppositeSides(l: Node, r: Node, code: string, i: nat, j: nat)
    requires var a := CodeWrites(Some(l), code + "0", false);
      var ps := a + CodeWrites(Some(r), code + "1", false);
      i < |ps| && j < |ps| && (i < |a| <==> j >= |a|)
    ensures var ps := CodeWrites(Some(l), code + "0", false) + CodeWrites(Some(r), code + "1", false);
      !IsPrefix(ps[i].1, ps[j].1)
  {
    var ps := CodeWrites(Some(l), code + "0", false) + CodeWrites(Some(r), code + "1", false);
    SideBit(l, r, code, i);
    SideBit(l, r, code, j);
    assert ps[i].1[|code|] != ps[j].1[|code|];
  }

  /** Outside the single-leaf state, following from `t` the bits a write
      appends to `code` reaches exactly the leaf it names. */
  lemma {:induction false} CodeWritesFollow(t: Node, code: string)
    ensures |CodeWrites(Some(t), code, false)| == |LeafEntries(t)|
    ensures forall i :: 0 <= i < |CodeWrites(Some(t), code, false)| ==>
      && |CodeWrites(Some(t), code, false)[i].1| >= |code|
      && Follow(t, CodeWrites(Some(t), code, false)[i].1[|code|..]) ==
           Some(Leaf(LeafEntries(t)[i].ch, LeafEntries(t)[i].count))
    decreases Size(t)
  {
    CodeWritesExtend(t, code);
    match t
    case Leaf(_, _) =>
      assert CodeWrites(Some(t), code, false)[0].1[|code|..] == [];
    case Internal(_, l, r) =>
      var a, b := CodeWrites(Some(l), code + "0", false), CodeWrites(Some(r), code + "1", false);
      CodeWritesFollow(l, code + "0");
      CodeWritesFollow(r, code + "1");
      var ps := a + b;
      var la, lb := LeafEntries(l), LeafEntries(r);
      forall i | 0 <= i < |ps|
        ensures |ps[i].1| >= |code|
        ensures Follow(t, ps[i].1[|code|..]) == Some(Leaf(LeafEntries(t)[i].ch, LeafEntries(t)[i].count))
      {
        var w := ps[i].1;
        SideBit(l, r, code, i);
        assert w[|code|..][0] == w[|code|];
        assert w[|code|..][1..] == w[|code| + 1..];
        if i < |a| {
          assert w == a[i].1 && LeafEntries(t)[i] == la[i];
        } else {
          assert w == b[i - |a|].1 && LeafEntries(t)[i] == lb[i - |a|];
        }
      }
  }

  /** In the single-leaf state every write is the code `"0"`. */
  lemma {:induction false} CodeWritesSingle(t: Node, code: string)
    ensures forall i :: 0 <= i < |CodeWrites(Some(t), code, true)| ==> CodeWrites(Some(t), code, true)[i].1 == "0"
    decreases Size(t)
  {
    match t
    case Leaf(_, _) =>
    case Internal(_, l, r) =>
      var a, b := CodeWrites(Some(l), code + "0", true), CodeWrites(Some(r), code + "1", true);
      CodeWritesSingle(l, code + "0");
      CodeWritesSingle(r, code + "1");
      var ps: seq<(char, string)> := a + b;
      forall i | 0 <= i < |ps| ensures ps[i].1 == "0" {
        if i < |a| { assert ps[i] == a[i]; } else { assert ps[i] == b[i - |a|]; }
      }
  }

  /** Prefix-free codes are distinct, so the swapped writes have distinct keys. */
  lemma SwapUnique(ps: seq<(char, string)>)
    requires PrefixFree(ps)
    ensures UniqueKeys(Swap(ps))
  {
    var sw := Swap(ps);
    forall i, j | 0 <= i < j < |sw| ensures sw[i].0 != sw[j].0 {
      assert !IsPrefix(ps[i].1, ps[j].1);
    }
  }

  /** Writes with distinct keys and prefix-free, non-empty codes give a code
      table and a reverse table that are exact inverses of each other, and in
      which no proper prefix of a code is a key of the reverse table. */
  lemma TablesInverse(ps: seq<(char, string)>)
    requires UniqueKeys(ps) && PrefixFree(ps)
    requires forall i :: 0 <= i < |ps| ==> ps[i].1 != []
    ensures var codes, rev := ApplyAll(map[], ps), ApplyAll(map[], Swap(ps));
      && codes.Keys == KeySet(ps)
      && PrefixFreeInverse(codes, rev)
      && (forall w :: w in rev ==> rev[w] in codes && codes[rev[w]] == w)
  {
    var codes, rev, sw := ApplyAll(map[], ps), ApplyAll(map[], Swap(ps)), Swap(ps);
    ApplyAllUnique(map[], ps);
    SwapUnique(ps);
    forall c | c in codes
      ensures codes[c] != [] && codes[c] in rev && rev[codes[c]] == c
      ensures forall k :: 0 < k < |codes[c]| ==> codes[c][..k] !in rev
    {
      var i :| 0 <= i < |ps| && ps[i].0 == c;
      CodeKeyInverse(ps, i);
    }
    RevInverse(ps);
  }

  lemma RevInverse(ps: seq<(char, string)>)
    requires UniqueKeys(ps) && UniqueKeys(Swap(ps))
    ensures var codes, rev := ApplyAll(map[], ps), ApplyAll(map[], Swap(ps));
      forall w :: w in rev ==> rev[w] in codes && codes[rev[w]] == w
  {
    var codes, rev, sw := ApplyAll(map[], ps), ApplyAll(map[], Swap(ps)), Swap(ps);
    ApplyAllUnique(map[], ps);
    ApplyAllUnique(map[], sw);
    forall w | w in rev ensures rev[w] in codes && codes[rev[w]] == w {
      var j :| 0 <= j < |sw| && sw[j].0 == w;
      assert rev[w] == ps[j].0 && ps[j].0 in KeySet(ps) && codes[ps[j].0] == ps[j].1;
    }
  }

  lemma CodeKeyInverse(ps: seq<(char, string)>, i: nat)
    requires UniqueKeys(ps) && PrefixFree(ps) && UniqueKeys(Swap(ps))
    requires i < |ps|
    ensures var codes, rev := ApplyAll(map[], ps), ApplyAll(map[], Swap(ps));
      && ps[i].0 in codes && codes[ps[i].0] == ps[i].1
      && ps[i].1 in rev && rev[ps[i].1] == ps[i].0
      && forall k :: 0 < k < |ps[i].1| ==> ps[i].1[..k] !in rev
  {
    var codes, rev, sw := ApplyAll(map[], ps), ApplyAll(map[], Swap(ps)), Swap(ps);
    ApplyAllUnique(map[], ps);
    ApplyAllUnique(map[], sw);
    assert sw[i].0 == ps[i].1;
    assert ps[i].1 in KeySet(sw);
    forall k | 0 < k < |ps[i].1| ensures ps[i].1[..k] !in rev {
      ProperPrefixNoCode(ps, i, k);
    }
  }

  /** A proper prefix of a code of prefix-free writes is no written code. */
  lemma ProperPrefixNoCode(ps: seq<(char, string)>, i: nat, k: nat)
    requires PrefixFree(ps)
    requires i < |ps| && 0 < k < |ps[i].1|
    ensures ps[i].1[..k] !in KeySet(Swap(ps))
  {
    var sw := Swap(ps);
    forall j | 0 <= j < |sw| ensures sw[j].0 != ps[i].1[..k] {
      if j != i {
        assert !IsPrefix(ps[j].1, ps[i].1);
      } else {
        assert |ps[i].1[..k]| == k < |ps[i].1|;
      }
    }
  }

  /** The tables `make_codes` writes from empty dictionaries for the root `t`,
      in the two states the build leaves `nodeList` in: one leaf with the list
      holding it (`single`), or an internal root with the list empty. The code
      table covers exactly the leaves' characters, the two tables are exact
      inverses and prefix-free; the single leaf gets `"0"`, every other leaf
      the path that leads to it from the root. */
  lemma TreeTables(t: Node, single: bool)
    requires UniqueChars(LeafEntries(t))
    requires single <==> t.Leaf?
    ensures var ps := CodeWrites(Some(t), [], single);
      var codes, rev := ApplyAll(map[], ps), ApplyAll(map[], Swap(ps));
      && codes.Keys == Chars(LeafEntries(t))
      && PrefixFreeInverse(codes, rev)
      && (forall w :: w in rev ==> rev[w] in codes && codes[rev[w]] == w)
      && (t.Leaf? ==> codes == map[t.ch := "0"])
      && (t.Internal? ==> forall c :: c in codes ==>
            exists k :: Follow(t, codes[c]) == Some(Leaf(c, k)))
  {
    var ps := CodeWrites(Some(t), [], single);
    WritesNameLeaves(t, single);
    if single {
      assert ps == [(t.ch, "0")];
      ApplyAllUnique(map[], ps);
    } else {
      PathTables(t);
    }
  }

  /** The writes name each leaf character once, and exactly those. */
  lemma WritesNameLeaves(t: Node, single: bool)
    requires UniqueChars(LeafEntries(t))
    ensures UniqueKeys(CodeWrites(Some(t), [], single))
    ensures KeySet(CodeWrites(Some(t), [], single)) == Chars(LeafEntries(t))
  {
    var ps := CodeWrites(Some(t), [], single);
    var q := LeafEntries(t);
    CodeWritesLeaves(t, [], single);
    assert UniqueKeys(ps) by {
      forall i, j | 0 <= i < j < |ps| ensures ps[i].0 != ps[j].0 {
        assert ps[i].0 == q[i].ch && ps[j].0 == q[j].ch;
      }
    }
    assert KeySet(ps) == Chars(q) by {
      forall c | c in Chars(q) ensures c in KeySet(ps) {
        var i :| 0 <= i < |q| && q[i].ch == c;
        assert ps[i].0 == c;
      }
    }
  }

  /** The tables of an internal root: prefix-free inverses whose every code
      is the path to its leaf. */
  lemma PathTables(t: Node)
    requires t.Internal?
    requires UniqueKeys(CodeWrites(Some(t), [], false))
    ensures var ps := CodeWrites(Some(t), [], false);
      var codes, rev := ApplyAll(map[], ps), ApplyAll(map[], Swap(ps));
      && codes.Keys == KeySet(ps)
      && PrefixFreeInverse(codes, rev)
      && (forall w :: w in rev ==> rev[w] in codes && codes[rev[w]] == w)
      && (forall c :: c in codes ==> exists k :: Follow(t, codes[c]) == Some(Leaf(c, k)))
  {
    var ps := CodeWrites(Some(t), [], false);
    var q := LeafEntries(t);
    CodeWritesLeaves(t, [], false);
    CodeWritesExtend(t, []);
    CodeWritesPrefixFree(t, []);
    CodeWritesFollow(t, []);
    forall i | 0 <= i < |ps| ensures ps[i].1 != [] {
      assert |ps[i].1| > 0;
    }
    TablesInverse(ps);
    ApplyAllUnique(map[], ps);
    var codes := ApplyAll(map[], ps);
    forall c | c in codes ensures exists k :: Follow(t, codes[c]) == Some(Leaf(c, k)) {
      var i :| 0 <= i < |ps| && ps[i].0 == c;
      assert codes[c] == ps[i].1 && ps[i].1[0..] == ps[i].1;
      assert Follow(t, codes[c]) == Some(Leaf(c, q[i].count));
    }
  }

  /** Decoding one code: its bits are buffered until the whole code matches,
      then its character is emitted and the buffer starts over. */
  lemma {:induction false} DecodeOneCode(rev: map<string, char>, current: string, w: string, rest: string)
    requires w != [] && current + w in rev
    requires forall k :: 0 < k < |w| ==> current + w[..k] !in rev
    ensures DecodeFrom(rev, current, w + rest) == [rev[current + w]] + DecodeFrom(rev, [], rest)
    decreases |w|
  {
    var bits := w + rest;
    var b := current + [bits[0]];
    assert bits[1..] == w[1..] + rest;
    if |w| == 1 {
      assert b == current + w;
    } else {
      assert w[..1] == [w[0]];
      assert b == current + w[..1];
      assert b + w[1..] == current + w;
      forall k | 0 < k < |w[1..]| ensures b + w[1..][..k] !in rev {
        assert b + w[1..][..k] == current + w[..k + 1];
      }
      DecodeOneCode(rev, b, w[1..], rest);
    }
  }

  /** Bits that complete no code are dropped at the end of the input. */
  lemma {:induction false} DecodeDropsTail(rev: map<string, char>, current: string, junk: string)
    requires forall k :: 0 < k <= |junk| ==> current + junk[..k] !in rev
    ensures DecodeFrom(rev, current, junk) == []
    decreases |junk|
  {
    if junk != [] {
      var b := current + [junk[0]];
      assert junk[..1] == [junk[0]];
      forall k | 0 < k <= |junk[1..]| ensures b + junk[1..][..k] !in rev {
        assert b + junk[1..][..k] == current + junk[..k + 1];
      }
      DecodeDropsTail(rev, b, junk[1..]);
    }
  }

  /** Decoding undoes encoding: with a prefix-free inverse table, decoding the
      encoding of `text`, followed by any bits that complete no code, gives
      back `text`. */
  lemma {:induction false} DecodeEncode(codes: map<char, string>, rev: map<string, char>, text: string, junk: string)
    requires PrefixFreeInverse(codes, rev)
    requires Encode(codes, text).Ok?
    requires forall k :: 0 < k <= |junk| ==> junk[..k] !in rev
    ensures Decode(rev, Encode(codes, text).value + junk) == text
    decreases |text|
  {
    if text == [] {
      assert Encode(codes, text).value + junk == junk;
      forall k | 0 < k <= |junk| ensures [] + junk[..k] !in rev {
        assert [] + junk[..k] == junk[..k];
      }
      DecodeDropsTail(rev, [], junk);
    } else {
      var w := codes[text[0]];
      var tail := Encode(codes, text[1..]).value;
      assert Encode(codes, text).value + junk == w + (tail + junk);
      assert [] + w == w;
      forall k | 0 < k < |w| ensures [] + w[..k] !in rev {
        assert [] + w[..k] == w[..k];
      }
      DecodeOneCode(rev, [], w, tail + junk);
      DecodeEncode(codes, rev, text[1..], junk);
      assert text == [text[0]] + text[1..];
    }
  }

  /** Encoding stops at the first character without a code. */
  lemma EncodeFirstMissing(codes: map<char, string>, text: string, i: nat)
    requires i < |text| && text[i] !in codes
    requires forall j :: 0 <= j < i ==> text[j] in codes
    ensures Encode(codes, text) == Err(KeyError(text[i]))
  {
    assert text[i] in text;
  }

  /** Encoding one more character that has a code appends that code. */
  lemma {:induction false} EncodeSnoc(codes: map<char, string>, text: string, c: char)
    requires Encode(codes, text).Ok? && c in codes
    ensures Encode(codes, text + [c]) == Ok(Encode(codes, text).value + codes[c])
    decreases |text|
  {
    if text == [] {
      assert text + [c] == [c] && [c][1..] == [];
      assert Encode(codes, [c]) == Ok(codes[c] + []);
      assert codes[c] + [] == codes[c] == [] + codes[c];
      assert Encode(codes, text) == Ok([]);
    } else {
      assert (text + [c])[0] == text[0] && (text + [c])[1..] == text[1..] + [c];
      assert text[0] in codes && Encode(codes, text[1..]).Ok?;
      EncodeSnoc(codes, text[1..], c);
      var x, y := codes[text[0]], Encode(codes, text[1..]).value;
      assert Encode(codes, text) == Ok(x + y);
      assert Encode(codes, text + [c]) == Ok(x + (y + codes[c]));
      assert x + (y + codes[c]) == (x + y) + codes[c];
    }
  }
}
