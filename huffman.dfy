/** The `Huffman` class of huffman.py: its five fields and the methods of its
    encode/decode pipeline, each proved against the functions of Frequency,
    TreeBuild, Codes and Pipeline. */
module HuffmanCoding {
  import opened Outcomes
  import opened Frequency
  import opened Tree
  import opened TreeBuild
  import opened Codes
  import opened Pipeline

  class Huffman {
    var root: Option<Node>
    var queue: seq<Entry>
    var nodeList: seq<Node>
    var codes: map<char, string>
    var reverseMapping: map<string, char>

    constructor ()
      ensures root == None && queue == [] && nodeList == []
      ensures codes == map[] && reverseMapping == map[]
    {
      root := None;
      queue := [];
      nodeList := [];
      codes := map[];
      reverseMapping := map[];
    }

    method GetCharacterFrequency(contents: string) returns (q: seq<Entry>)
      modifies this`queue
      ensures q == queue == CharacterFrequency(contents)
    {
      queue := CharacterFrequency(contents);
      q := queue;
    }

    /** Drains `queue` from the front into one leaf per entry at the end of
        `nodeList`. */
    method MakeNodeList()
      modifies this`queue, this`nodeList
      ensures queue == []
      ensures nodeList == old(nodeList) + LeafNodes(old(queue))
    {
      ghost var q0 := queue;
      while |queue| > 0
        invariant |queue| <= |q0| && queue == q0[|q0| - |queue|..]
        invariant nodeList == old(nodeList) + LeafNodes(q0[..|q0| - |queue|])
        decreases |queue|
      {
        ghost var done := |q0| - |queue|;
        var a := queue[0];
        queue := queue[1..];
        var newNode := Leaf(a.ch, a.count);
        nodeList := nodeList + [newNode];
        assert q0[..done + 1] == q0[..done] + [a];
        LeafNodesAppend(q0[..done], [a]);
      }
      assert q0[..|q0|] == q0;
    }

    /** Inserts `inode` before the first element whose key is at most its own,
        or leaves `nodeList` alone when there is none. */
    method InsertNode(inode: Node)
      modifies this`nodeList
      ensures nodeList == Inserted(old(nodeList), inode)
    {
      for i := 0 to |nodeList|
        invariant nodeList == old(nodeList)
        invariant forall j :: 0 <= j < i ==> nodeList[j].key > inode.key
      {
        if inode.key >= nodeList[i].key {
          nodeList := nodeList[..i] + [inode] + nodeList[i..];
          return;
        }
      }
    }

    /** `make_node_list`, then the `while True` merge loop and the merge of the
        last two nodes; the IndexError of `pop(0)` on an empty list is the
        `PopFromEmpty` status, with `root` left unassigned. */
    method BuildHuffmanTree() returns (status: Status)
      modifies this`queue, this`nodeList, this`root
      ensures var run := BuildTree(old(nodeList) + LeafNodes(old(queue)));
        && status == run.status
        && queue == []
        && nodeList == run.nodes
        && root == (if run.status == Built then run.root else old(root))
    {
      MakeNodeList();
      if |nodeList| == 1 {
        root := Some(nodeList[0]);
        return Built;
      }
      ghost var run := MergeLoop(nodeList, []);
      ghost var lost: seq<Node> := [];
      ghost var last: seq<Node> := [];
      while true
        invariant queue == [] && root == old(root)
        invariant MergeLoop(nodeList, lost) == run
        decreases |nodeList|
      {
        ghost var before, lostBefore := nodeList, lost;
        if |nodeList| == 0 {
          MergeLoopShort(nodeList, lost);
          assert run.status == PopFromEmpty && run.nodes == nodeList;
          return PopFromEmpty;
        }
        var l := nodeList[0];
        nodeList := nodeList[1..];
        if |nodeList| == 0 {
          MergeLoopShort(before, lost);
          assert run.status == PopFromEmpty && run.nodes == nodeList;
          return PopFromEmpty;
        }
        var r := nodeList[0];
        nodeList := nodeList[1..];
        var newNode := Merge(l, r);
        ghost var rest := nodeList;
        assert rest == before[2..] && newNode == Merge(before[0], before[1]);
        InsertNode(newNode);
        lost := if |nodeList| == |rest| then lost + [newNode] else lost;
        MergeLoopUnfold(before, lostBefore);
        if |nodeList| == 2 {
          last := nodeList;
          assert run == Run(Built, [], Some(Merge(last[0], last[1])), lost);
          break;
        }
      }
      var l := nodeList[0];
      nodeList := nodeList[1..];
      var r := nodeList[0];
      nodeList := nodeList[1..];
      root := Some(Merge(l, r));
      status := Built;
    }

    /** Walks the tree below `node`, extending `currentCode` with `'0'` to the
        left and `'1'` to the right, and records each leaf in `codes` and
        `reverseMapping`; in the single-leaf state the code is `"0"`. */
    method MakeCodes(node: Option<Node>, currentCode: string)
      modifies this`codes, this`reverseMapping
      ensures codes == ApplyAll(old(codes), CodeWrites(node, currentCode, |nodeList| == 1))
      ensures reverseMapping ==
        ApplyAll(old(reverseMapping), Swap(CodeWrites(node, currentCode, |nodeList| == 1)))
      decreases if node.Some? then Size(node.value) else 0
    {
      if node.None? {
        return;
      }
      var t := node.value;
      if t.Leaf? {
        if |nodeList| == 1 {
          codes := codes[t.ch := "0"];
          reverseMapping := reverseMapping["0" := t.ch];
        } else {
          codes := codes[t.ch := currentCode];
          reverseMapping := reverseMapping[currentCode := t.ch];
        }
        return;
      }
      var single := |nodeList| == 1;
      var a := CodeWrites(Some(t.left), currentCode + "0", single);
      var b := CodeWrites(Some(t.right), currentCode + "1", single);
      MakeCodes(Some(t.left), currentCode + "0");
      MakeCodes(Some(t.right), currentCode + "1");
      ApplyAllAppend(old(codes), a, b);
      SwapAppend(a, b);
      ApplyAllAppend(old(reverseMapping), Swap(a), Swap(b));
    }

    /** `make_codes_dict` without the pickling of the two dictionaries. */
    method MakeCodesDict()
      modifies this`codes, this`reverseMapping
      ensures codes == ApplyAll(old(codes), CodeWrites(root, [], |nodeList| == 1))
      ensures reverseMapping ==
        ApplyAll(old(reverseMapping), Swap(CodeWrites(root, [], |nodeList| == 1)))
    {
      MakeCodes(root, "");
    }

    /** Frequency table, tree, code tables, then the codes of the characters of
        `text` concatenated; an exception of any step is the error result. */
    method GetEncodedBytes(text: string) returns (r: Result<string>)
      modifies this
      ensures var e := EncodeText(text, old(nodeList), old(root), old(codes), old(reverseMapping));
        && queue == e.queue && nodeList == e.nodes && root == e.root
        && codes == e.codes && reverseMapping == e.rev
        && r == e.result
    {
      ghost var nodes0, root0, codes0, rev0 := nodeList, root, codes, reverseMapping;
      ghost var e := EncodeText(text, nodes0, root0, codes0, rev0);
      var q := GetCharacterFrequency(text);
      var status := BuildHuffmanTree();
      if status == PopFromEmpty {
        EncodeTextFailed(text, nodes0, root0, codes0, rev0);
        return Err(IndexError);
      }
      MakeCodesDict();
      EncodeTextBuilt(text, nodes0, root0, codes0, rev0);
      r := EncodeCharacters(codes, text);
    }

    /** The matching loop of `get_decoded_text`, with `stored` standing for the
        reverse mapping it loads from its file. */
    method GetDecodedText(encodedText: string, stored: map<string, char>) returns (decodedText: string)
      modifies this`reverseMapping
      ensures reverseMapping == stored
      ensures decodedText == Decode(stored, encodedText)
    {
      var currentCode := "";
      decodedText := "";
      reverseMapping := stored;
      for i := 0 to |encodedText|
        invariant decodedText + DecodeFrom(reverseMapping, currentCode, encodedText[i..]) ==
          Decode(reverseMapping, encodedText)
      {
        assert encodedText[i..][1..] == encodedText[i + 1..];
        currentCode := currentCode + [encodedText[i]];
        if currentCode in reverseMapping {
          decodedText := decodedText + [reverseMapping[currentCode]];
          currentCode := "";
        }
      }
    }
  }

  /** The loop of `get_encoded_bytes`: the code of each character of `text` in
      turn; a character without one raises the KeyError. */
  method EncodeCharacters(codes: map<char, string>, text: string) returns (r: Result<string>)
    ensures r == Encode(codes, text)
  {
    var encodedText := "";
    for i := 0 to |text|
      invariant forall j :: 0 <= j < i ==> text[j] in codes
      invariant Encode(codes, text[..i]) == Ok(encodedText)
    {
      if text[i] !in codes {
        EncodeFirstMissing(codes, text, i);
        return Err(KeyError(text[i]));
      }
      assert text[..i + 1] == text[..i] + [text[i]];
      EncodeSnoc(codes, text[..i], text[i]);
      encodedText := encodedText + codes[text[i]];
    }
    assert text[..|text|] == text;
    return Ok(encodedText);
  }
}
