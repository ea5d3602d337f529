/**
 * The deduplication query `getMarkedBlocks` (src/utils/common.js): the ids
 * of the top-level blocks of a highlights page that carry the marker
 * property. Logseq's `getPageBlocksTree` is the parameter `pageBlocksTree`,
 * which has no tree for a page that does not exist.
 */
module Marked {
  import opened Wrappers
  import opened JsString

  /** A Logseq block: its uuid and, when it has any, its properties. */
  datatype Block = Block(uuid: string, properties: Option<map<string, string>>)

  const HlsPrefix: string := "hls__"

  /** The highlights page of a page name: `"hls__"` + the name without its first ".md". */
  function HlsPageName(pageName: string): string
  {
    HlsPrefix + ReplaceFirst(pageName, ".md", "")
  }

  /** A block with properties that include the marker key. */
  predicate IsMarked(b: Block, marker: string)
  {
    b.properties.Some? && marker in b.properties.value
  }

  /** `block.properties.id`: `undefined` when the block has no id property. */
  function IdProperty(props: map<string, string>): Option<string>
  {
    if "id" in props then Some(props["id"]) else None
  }

  /** The `properties.id` of every marked block, in block order. */
  function MarkedIds(blocks: seq<Block>, marker: string): seq<Option<string>>
  {
    if |blocks| == 0 then []
    else
      var last := blocks[|blocks| - 1];
      MarkedIds(blocks[..|blocks| - 1], marker)
        + (if IsMarked(last, marker) then [IdProperty(last.properties.value)] else [])
  }

  /**
   * `getMarkedBlocks`: walks the top-level blocks of the highlights page and
   * collects the id of each block carrying the marker; blocks without
   * properties are skipped. A page that does not exist has no block tree
   * (`null`), and iterating over it throws: the result is then `None`.
   */
  method GetMarkedBlocks(pageName: string, marker: string, pageBlocksTree: string -> Option<seq<Block>>)
    returns (marked: Option<seq<Option<string>>>)
    ensures pageBlocksTree(HlsPageName(pageName)).None? ==> marked.None?
    ensures pageBlocksTree(HlsPageName(pageName)).Some? ==>
              marked == Some(MarkedIds(pageBlocksTree(HlsPageName(pageName)).value, marker))
  {
    var hlsPage := HlsPrefix + ReplaceFirst(pageName, ".md", "");
    var tree := pageBlocksTree(hlsPage);
    if tree.None? {
      return None;
    }
    var oldMDContent := tree.value;
    var ids: seq<Option<string>> := [];
    for i := 0 to |oldMDContent|
      invariant ids == MarkedIds(oldMDContent[..i], marker)
    {
      assert oldMDContent[..i + 1][..i] == oldMDContent[..i];
      var block := oldMDContent[i];
      if block.properties.None? {
        continue;
      }
      if marker in block.properties.value {
        ids := ids + [IdProperty(block.properties.value)];
      }
    }
    assert oldMDContent[..|oldMDContent|] == oldMDContent;
    return Some(ids);
  }

  /**
   * An id is reported exactly when some block carries both the marker and
   * that id; with no marked block nothing is reported.
   */
  lemma {:induction false} MarkedIdsMembers(blocks: seq<Block>, marker: string)
    ensures forall id :: Some(id) in MarkedIds(blocks, marker) <==>
              exists b :: b in blocks && IsMarked(b, marker) && IdProperty(b.properties.value) == Some(id)
    ensures |MarkedIds(blocks, marker)| <= |blocks|
    ensures (forall b :: b in blocks ==> !IsMarked(b, marker)) ==> MarkedIds(blocks, marker) == []
  {
    if |blocks| > 0 {
      var init := blocks[..|blocks| - 1];
      MarkedIdsMembers(init, marker);
      assert blocks == init + [blocks[|blocks| - 1]];
    }
  }

  /** The marked blocks, in block order. */
  function MarkedBlocks(blocks: seq<Block>, marker: string): seq<Block>
  {
    if |blocks| == 0 then []
    else
      var last := blocks[|blocks| - 1];
      MarkedBlocks(blocks[..|blocks| - 1], marker) + (if IsMarked(last, marker) then [last] else [])
  }

  /** One entry per marked block: the k-th id is that of the k-th marked block. */
  lemma {:induction false} MarkedIdsPerBlock(blocks: seq<Block>, marker: string)
    ensures |MarkedIds(blocks, marker)| == |MarkedBlocks(blocks, marker)|
    ensures forall k :: 0 <= k < |MarkedBlocks(blocks, marker)| ==>
              IsMarked(MarkedBlocks(blocks, marker)[k], marker) &&
              MarkedIds(blocks, marker)[k] == IdProperty(MarkedBlocks(blocks, marker)[k].properties.value)
  {
    if |blocks| > 0 {
      var init := blocks[..|blocks| - 1];
      var last := blocks[|blocks| - 1];
      MarkedIdsPerBlock(init, marker);
      var ids := MarkedIds(init, marker);
      var bs := MarkedBlocks(init, marker);
      if IsMarked(last, marker) {
        assert MarkedIds(blocks, marker) == ids + [IdProperty(last.properties.value)];
        assert MarkedBlocks(blocks, marker) == bs + [last];
      } else {
        assert MarkedIds(blocks, marker) == ids;
        assert MarkedBlocks(blocks, marker) == bs;
      }
    }
  }

  /** Each marked block is listed exactly as often as it occurs, any other never. */
  lemma {:induction false} MarkedBlocksCount(blocks: seq<Block>, marker: string)
    ensures forall b :: multiset(MarkedBlocks(blocks, marker))[b] ==
              if IsMarked(b, marker) then multiset(blocks)[b] else 0
  {
    if |blocks| > 0 {
      var init := blocks[..|blocks| - 1];
      var last := blocks[|blocks| - 1];
      MarkedBlocksCount(init, marker);
      assert blocks == init + [last];
      assert multiset(blocks) == multiset(init) + multiset{last};
    }
  }

  /** A name without ".md" just gains the prefix; "paper.md" gives "hls__paper". */
  lemma HlsPageNameExamples(pageName: string)
    requires IndexOf(pageName, ".md").None?
    ensures HlsPageName(pageName) == HlsPrefix + pageName
    ensures HlsPageName("paper.md") == "hls__paper"
  {
    forall j | 0 <= j < 5
      ensures !OccursAt("paper.md", ".md", j)
    {
      assert "paper.md"[j..j + 3][0] == "paper.md"[j];
    }
    ReplaceFirstAt("paper.md", ".md", "", 5);
    assert "paper.md"[..5] == "paper";
  }
}
