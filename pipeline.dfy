/** `get_encoded_bytes` of huffman.py as a function of the text and of the
    fields it starts from, and the properties of the whole pipeline run on a
    fresh object: when it succeeds, what the tables are, and the round trip
    through `get_decoded_text`. */
module Pipeline {
  import opened Outcomes
  import opened Frequency
  import opened Tree
  import opened TreeBuild
  import opened Codes

  /** The fields `get_encoded_bytes` leaves and the value it returns (or the
      exception it raises). */
  datatype Encoding = Encoding(
    queue: seq<Entry>,
    nodes: seq<Node>,
    root: Option<Node>,
    codes: map<char, string>,
    rev: map<string, char>,
    result: Result<string>)

  /** `get_encoded_bytes(text)` on an object whose `nodeList`, `root`, `codes`
      and `reverse_mapping` are `nodes0`, `root0`, `codes0` and `rev0`. */
  function EncodeText(text: string, nodes0: seq<Node>, root0: Option<Node>,
                      codes0: map<char, string>, rev0: map<string, char>): (e: Encoding)
    ensures e.queue == []
    ensures e.nodes == BuildTree(nodes0 + LeafNodes(CharacterFrequency(text))).nodes
    ensures BuildTree(nodes0 + LeafNodes(CharacterFrequency(text))).status == PopFromEmpty <==>
      e.result == Err(IndexError)
    ensures e.result.Ok? ==> e.root.Some? && forall c :: c in text ==> c in e.codes
  {
    var run := BuildTree(nodes0 + LeafNodes(CharacterFrequency(text)));
    if run.status == PopFromEmpty then
      Encoding([], run.nodes, root0, codes0, rev0, Err(IndexError))
    else
      var writes := CodeWrites(run.root, [], |run.nodes| == 1);
      var codes := ApplyAll(codes0, writes);
      Encoding([], run.nodes, run.root, codes, ApplyAll(rev0, Swap(writes)), Encode(codes, text))
  }

  /** `Huffman().get_encoded_bytes(text)`: the pipeline on a fresh object. */
  function EncodeFresh(text: string): Encoding {
    EncodeText(text, [], None, map[], map[])
  }

  /** A failing build leaves everything but `queue` and `nodeList` alone and
      gives the IndexError. */
  lemma EncodeTextFailed(text: string, nodes0: seq<Node>, root0: Option<Node>,
                         codes0: map<char, string>, rev0: map<string, char>)
    requires BuildTree(nodes0 + LeafNodes(CharacterFrequency(text))).status == PopFromEmpty
    ensures EncodeText(text, nodes0, root0, codes0, rev0) ==
      Encoding([], BuildTree(nodes0 + LeafNodes(CharacterFrequency(text))).nodes,
               root0, codes0, rev0, Err(IndexError))
  {
  }

  /** A build that does not fail leaves the code tables of the new root, and
      the result is the text encoded with them. */
  lemma EncodeTextBuilt(text: string, nodes0: seq<Node>, root0: Option<Node>,
                        codes0: map<char, string>, rev0: map<string, char>)
    requires BuildTree(nodes0 + LeafNodes(CharacterFrequency(text))).status == Built
    ensures EncodeText(text, nodes0, root0, codes0, rev0).nodes ==
      BuildTree(nodes0 + LeafNodes(CharacterFrequency(text))).nodes
    ensures EncodeText(text, nodes0, root0, codes0, rev0).root ==
      BuildTree(nodes0 + LeafNodes(CharacterFrequency(text))).root
    ensures var run := BuildTree(nodes0 + LeafNodes(CharacterFrequency(text)));
      EncodeText(text, nodes0, root0, codes0, rev0).codes ==
        ApplyAll(codes0, CodeWrites(run.root, [], |run.nodes| == 1))
    ensures var run := BuildTree(nodes0 + LeafNodes(CharacterFrequency(text)));
      EncodeText(text, nodes0, root0, codes0, rev0).rev ==
        ApplyAll(rev0, Swap(CodeWrites(run.root, [], |run.nodes| == 1)))
    ensures var e := EncodeText(text, nodes0, root0, codes0, rev0);
      e.result == Encode(e.codes, text)
  {
    var run := BuildTree(nodes0 + LeafNodes(CharacterFrequency(text)));
    var writes := CodeWrites(run.root, [], |run.nodes| == 1);
    var codes := ApplyAll(codes0, writes);
    assert EncodeText(text, nodes0, root0, codes0, rev0) ==
      Encoding([], run.nodes, run.root, codes, ApplyAll(rev0, Swap(writes)), Encode(codes, text));
  }

  /** The build `get_encoded_bytes` runs on a fresh object. */
  function FreshRun(text: string): Run {
    BuildTree(LeafNodes(CharacterFrequency(text)))
  }

  /** A build on a fresh object that ends normally has a well-weighted root
      whose leaves carry distinct characters of the text; it is a leaf exactly
      in the single-leaf state; it holds every character of the text exactly
      when no merged node was dropped, and then its key is the length of the
      text. */
  lemma FreshBuilt(text: string)
    requires FreshRun(text).status == Built
    ensures FreshRun(text).root.Some?
    ensures var run := FreshRun(text);
      var t := run.root.value;
      && UniqueChars(LeafEntries(t))
      && ((|run.nodes| == 1) <==> t.Leaf?)
      && WellWeighted(t)
      && Chars(LeafEntries(t)) <= Alphabet(text)
      && (run.lost == [] <==> Chars(LeafEntries(t)) == Alphabet(text))
      && (run.lost == [] ==> t.key == |text|)
  {
    FrequencyCounts(text);
    BuiltFromLeaves(CharacterFrequency(text));
  }

  /** A build over one leaf per entry of a table with distinct characters. */
  lemma BuiltFromLeaves(freq: seq<Entry>)
    requires UniqueChars(freq)
    requires BuildTree(LeafNodes(freq)).status == Built
    ensures BuildTree(LeafNodes(freq)).root.Some?
    ensures var run := BuildTree(LeafNodes(freq));
      var t := run.root.value;
      && UniqueChars(LeafEntries(t))
      && ((|run.nodes| == 1) <==> t.Leaf?)
      && WellWeighted(t)
      && Chars(LeafEntries(t)) <= Chars(freq)
      && (run.lost == [] <==> Chars(LeafEntries(t)) == Chars(freq))
      && (run.lost == [] ==> t.key == SumCounts(freq))
  {
    var leaves := LeafNodes(freq);
    var run := BuildTree(leaves);
    ForestOfLeaves(freq);
    BuildTreeShape(leaves);
    assert forall x :: x in leaves ==> WellWeighted(x);
    BuildTreeWellWeighted(leaves);
    var t := run.root.value;
    KeyIsLeafTotal(t);
    if |leaves| == 1 {
      BuildTreeConserves(leaves);
      ForestSingle(t);
      assert LeafEntries(t) == freq;
    } else {
      BuiltFromMany(freq);
    }
  }

  lemma BuiltFromMany(freq: seq<Entry>)
    requires UniqueChars(freq) && |freq| >= 2
    requires BuildTree(LeafNodes(freq)).root.Some?
    ensures var run := BuildTree(LeafNodes(freq));
      var t := run.root.value;
      && UniqueChars(LeafEntries(t))
      && Chars(LeafEntries(t)) <= Chars(freq)
      && (run.lost == [] <==> Chars(LeafEntries(t)) == Chars(freq))
      && (run.lost == [] ==> SumCounts(LeafEntries(t)) == SumCounts(freq))
  {
    var leaves := LeafNodes(freq);
    var run := BuildTree(leaves);
    ForestOfLeaves(freq);
    BuildTreeConserves(leaves);
    var t := run.root.value;
    assert RootLeaves(run.root) == LeafEntries(t);
    ForestEmpty(run.lost);
    PartOfUnique(LeafEntries(t), Forest(run.lost), freq);
  }

  /** The tables a fresh object leaves after a build that ends normally:
      one code per leaf character, prefix-free, `reverse_mapping` their
      inverse; `"0"` for a lone leaf, and otherwise every code the path to its
      leaf. */
  lemma FreshTables(text: string)
    requires FreshRun(text).status == Built
    ensures FreshRun(text).root.Some?
    ensures var e, t := EncodeFresh(text), FreshRun(text).root.value;
      && e.root == Some(t)
      && e.codes.Keys == Chars(LeafEntries(t))
      && PrefixFreeInverse(e.codes, e.rev)
      && (forall w :: w in e.rev ==> e.rev[w] in e.codes && e.codes[e.rev[w]] == w)
      && (t.Leaf? ==> e.codes == map[t.ch := "0"])
      && (t.Internal? ==> forall c :: c in e.codes ==>
            exists k :: Follow(t, e.codes[c]) == Some(Leaf(c, k)))
      && e.result == Encode(e.codes, text)
  {
    var run := FreshRun(text);
    FreshBuilt(text);
    assert [] + LeafNodes(CharacterFrequency(text)) == LeafNodes(CharacterFrequency(text));
    EncodeTextBuilt(text, [], None, map[], map[]);
    TreeTables(run.root.value, |run.nodes| == 1);
  }

  /** On a fresh object `get_encoded_bytes` returns a bit string exactly when
      the build ends normally without dropping a merged node, and then every
      character of the text has a code. */
  lemma EncodeSucceedsExactly(text: string)
    ensures EncodeFresh(text).result.Ok? <==>
      FreshRun(text).status == Built && FreshRun(text).lost == []
    ensures EncodeFresh(text).result.Ok? ==> EncodeFresh(text).codes.Keys == Alphabet(text)
  {
    if FreshRun(text).status == PopFromEmpty {
      assert [] + LeafNodes(CharacterFrequency(text)) == LeafNodes(CharacterFrequency(text));
      EncodeTextFailed(text, [], None, map[], map[]);
    } else {
      EncodeBuiltFresh(text);
    }
  }

  lemma EncodeBuiltFresh(text: string)
    requires FreshRun(text).status == Built
    ensures EncodeFresh(text).result.Ok? <==> FreshRun(text).lost == []
    ensures EncodeFresh(text).result.Ok? ==> EncodeFresh(text).codes.Keys == Alphabet(text)
  {
    FreshBuilt(text);
    FreshTables(text);
    var e := EncodeFresh(text);
    if FreshRun(text).lost != [] {
      var c :| c in Alphabet(text) && c !in e.codes;
      assert c in text;
    }
  }

  /** `get_decoded_text` with the stored reverse mapping returns the text that
      was encoded, and drops bits after the last code that begin no code. */
  lemma RoundTrip(text: string, junk: string)
    requires EncodeFresh(text).result.Ok?
    requires forall k :: 0 < k <= |junk| ==> junk[..k] !in EncodeFresh(text).rev
    ensures Decode(EncodeFresh(text).rev, EncodeFresh(text).result.value + junk) == text
  {
    EncodeSucceedsExactly(text);
    FreshTables(text);
    var e := EncodeFresh(text);
    DecodeEncode(e.codes, e.rev, text, junk);
  }

  /** Decoding the encoded text gives the text back. */
  lemma DecodeEncoded(text: string)
    requires EncodeFresh(text).result.Ok?
    ensures Decode(EncodeFresh(text).rev, EncodeFresh(text).result.value) == text
  {
    RoundTrip(text, []);
    assert EncodeFresh(text).result.value + [] == EncodeFresh(text).result.value;
  }

  /** After a successful encode the root holds every character of the text
      and its key is the length of the text. */
  lemma FreshRoot(text: string)
    requires EncodeFresh(text).result.Ok?
    ensures EncodeFresh(text).root.Some?
    ensures var t := EncodeFresh(text).root.value;
      WellWeighted(t) && t.key == |text| && Chars(LeafEntries(t)) == Alphabet(text)
  {
    EncodeSucceedsExactly(text);
    FreshBuilt(text);
    FreshTables(text);
  }

  /** A text of one repeated character gets the code `"0"` and encodes to one
      `'0'` per character. */
  lemma SingleSymbol(text: string, c: char)
    requires text != []
    requires forall i :: 0 <= i < |text| ==> text[i] == c
    ensures EncodeFresh(text).codes == map[c := "0"]
    ensures EncodeFresh(text).rev == map["0" := c]
    ensures EncodeFresh(text).result == Ok(seq(|text|, _ => '0'))
  {
    SingleRun(text, c);
    var t := Leaf(c, |text|);
    var leaves := [t];
    var ps := CodeWrites(Some(t), [], true);
    assert ps == [(c, "0")];
    assert Swap(ps) == [("0", c)];
    assert [] + LeafNodes(CharacterFrequency(text)) == leaves;
    EncodeTextBuilt(text, [], None, map[], map[]);
    assert ApplyAll(map[], ps) == map[c := "0"];
    assert ApplyAll(map[], Swap(ps)) == map["0" := c];
    EncodeRepeated(text, c);
  }

  /** One distinct character: one leaf carrying the whole length, which is the
      root the build returns at once. */
  lemma SingleRun(text: string, c: char)
    requires text != []
    requires forall i :: 0 <= i < |text| ==> text[i] == c
    ensures LeafNodes(CharacterFrequency(text)) == [Leaf(c, |text|)]
    ensures FreshRun(text) == Run(Built, [Leaf(c, |text|)], Some(Leaf(c, |text|)), [])
  {
    var freq := CharacterFrequency(text);
    FrequencyCounts(text);
    assert Alphabet(text) == {c} by {
      assert text[0] in text;
    }
    UniqueCard(freq);
    assert |freq| == 1;
    assert freq[0].ch in Chars(freq);
    assert freq[1..] == [];
    assert SumCounts(freq) == freq[0].count;
    assert LeafNodes(freq) == [Leaf(c, |text|)];
  }

  /** `n` copies of a character whose code is `"0"` encode to `n` zeros. */
  lemma {:induction false} EncodeRepeated(text: string, c: char)
    requires forall i :: 0 <= i < |text| ==> text[i] == c
    ensures Encode(map[c := "0"], text) == Ok(seq(|text|, _ => '0'))
    decreases |text|
  {
    if text != [] {
      EncodeRepeated(text[1..], c);
      assert text[0] == c;
      assert Encode(map[c := "0"], text) ==
        Ok("0" + Encode(map[c := "0"], text[1..]).value);
      assert "0" + seq(|text| - 1, _ => '0') == seq(|text|, _ => '0');
    } else {
      assert seq(|text|, _ => '0') == [];
    }
  }

  /** No character, or exactly two distinct ones, make `pop(0)` fail: the
      IndexError, with no root set. */
  lemma FewSymbolsFail(text: string)
    requires |Alphabet(text)| == 0 || |Alphabet(text)| == 2
    ensures EncodeFresh(text).result == Err(IndexError)
    ensures EncodeFresh(text).root == None
  {
    var freq := CharacterFrequency(text);
    FrequencyCounts(text);
    UniqueCard(freq);
    BuildTreeShape(LeafNodes(freq));
    assert [] + LeafNodes(freq) == LeafNodes(freq);
    EncodeTextFailed(text, [], None, map[], map[]);
  }

  /** A text of one newline encodes to `"0"`, and `"0"` decodes back to it
      with the reverse mapping that encode leaves. */
  lemma NewlineExample()
    ensures EncodeFresh("\n").result == Ok("0")
    ensures Decode(EncodeFresh("\n").rev, "0") == "\n"
  {
    SingleSymbol("\n", '\n');
    assert seq(1, _ => '0') == "0";
    assert "0"[1..] == [] && [] + ['0'] == "0";
    assert DecodeFrom(map["0" := '\n'], [], "0") == ['\n'] + DecodeFrom(map["0" := '\n'], [], []);
  }
}
