/**
 * The bracket-label parser of the label editor and its HTML serialiser
 * (`parse` and `toHtml`): a string is split into "normal" blocks of plain
 * text and "label" blocks `[...]`, and each block becomes one `<span>`.
 */
module BlockParser {

  datatype BlockType = Normal | Label

  /** A parsed piece of the editor text; `start` is as the parser records it. */
  datatype Block = Block(kind: BlockType, text: string, start: nat)

  /**
   * `s.indexOf(c, from)`: the first index at or after `from` holding `c`,
   * or -1 when there is none.
   */
  function IndexOf(s: string, c: char, from: nat): (r: int)
    ensures r == -1 || (from <= r < |s| && s[r] == c)
    decreases |s| - from
  {
    if from >= |s| then -1
    else if s[from] == c then from
    else IndexOf(s, c, from + 1)
  }

  /** `indexOf` finds the first occurrence: -1 only when there is none, and none before the index it returns. */
  lemma {:induction false} IndexOfFirst(s: string, c: char, from: nat)
    ensures IndexOf(s, c, from) == -1 ==> forall k :: from <= k < |s| ==> s[k] != c
    ensures IndexOf(s, c, from) != -1 ==> forall k :: from <= k < IndexOf(s, c, from) ==> s[k] != c
    decreases |s| - from
  {
    if from < |s| && s[from] != c {
      IndexOfFirst(s, c, from + 1);
    }
  }

  /** The right-most `[` in `text[lo..hi]`, which holds one at `lo`. */
  function LastOpenBefore(text: string, lo: nat, hi: nat): (m: nat)
    requires lo < hi <= |text| && text[lo] == '['
    ensures lo <= m < hi && text[m] == '['
    decreases hi - lo
  {
    if text[hi - 1] == '[' then hi - 1 else LastOpenBefore(text, lo, hi - 1)
  }

  /** No `[` lies between the one `LastOpenBefore` picks and `hi`. */
  lemma {:induction false} LastOpenBeforeIsLast(text: string, lo: nat, hi: nat)
    requires lo < hi <= |text| && text[lo] == '['
    ensures forall k :: LastOpenBefore(text, lo, hi) < k < hi ==> text[k] != '['
    decreases hi - lo
  {
    if text[hi - 1] != '[' {
      LastOpenBeforeIsLast(text, lo, hi - 1);
    }
  }

  /** `indexOf` returns an index holding `c` with no `c` between `from` and it. */
  lemma {:induction false} IndexOfAt(s: string, c: char, from: nat, i: nat)
    requires from <= i < |s| && s[i] == c
    requires forall k :: from <= k < i ==> s[k] != c
    ensures IndexOf(s, c, from) == i
    decreases i - from
  {
    if from < i {
      IndexOfAt(s, c, from + 1, i);
    }
  }

  /** `LastOpenBefore` returns a `[` with no `[` between it and `hi`. */
  lemma {:induction false} LastOpenAt(text: string, lo: nat, hi: nat, m: nat)
    requires lo <= m < hi <= |text| && text[lo] == '[' && text[m] == '['
    requires forall k :: m < k < hi ==> text[k] != '['
    ensures LastOpenBefore(text, lo, hi) == m
    decreases hi - lo
  {
    if m < hi - 1 {
      LastOpenAt(text, lo, hi - 1, m);
    }
  }

  /**
   * The `while (true)` loop of `parse`: starting from the first `[`, keep
   * moving to the next `[` while it still lies before the closing `]`.
   */
  method MostNearStart(text: string, startIndex: nat, endIndex: nat) returns (mostNear: nat)
    requires startIndex < endIndex < |text|
    requires text[startIndex] == '[' && text[endIndex] == ']'
    ensures mostNear == LastOpenBefore(text, startIndex, endIndex)
  {
    mostNear := startIndex;
    while true
      invariant startIndex <= mostNear < endIndex && text[mostNear] == '['
      decreases endIndex - mostNear
    {
      var tmpStartIndex := IndexOf(text, '[', mostNear + 1);
      if tmpStartIndex < 0 || endIndex < tmpStartIndex {
        IndexOfFirst(text, '[', mostNear + 1);
        assert forall k :: mostNear < k < endIndex ==> text[k] != '[';
        break;
      }
      mostNear := tmpStartIndex;
    }
    var last := LastOpenBefore(text, startIndex, endIndex);
    LastOpenBeforeIsLast(text, startIndex, endIndex);
    assert !(mostNear < last);
  }

  /**
   * `parse(text, start, blocks)`: while the text holds a `[` followed later
   * by a `]`, emit the text before the innermost `[` as a normal block and
   * the bracketed text as a label block, then continue after the `]`; the
   * rest, if any, is one normal block. The normal block of a step is tagged
   * with `start`, the label with its index in the current remainder, and the
   * next step is called with `endIndex + 1`.
   */
  function Parse(text: string, start: nat, blocks: seq<Block>): (r: seq<Block>)
    ensures |r| >= |blocks| && r[..|blocks|] == blocks
    decreases |text|
  {
    if |text| == 0 then blocks
    else
      var startIndex := IndexOf(text, '[', 0);
      if startIndex < 0 then blocks + [Block(Normal, text, start)]
      else
        var endIndex := IndexOf(text, ']', startIndex);
        if endIndex < 0 then blocks + [Block(Normal, text, start)]
        else
          var mostNearStartIndex := LastOpenBefore(text, startIndex, endIndex);
          var normalText := text[..mostNearStartIndex];
          var labelText := text[mostNearStartIndex..endIndex + 1];
          var remainingText := text[endIndex + 1..];
          Parse(remainingText, endIndex + 1,
                blocks + [Block(Normal, normalText, start), Block(Label, labelText, mostNearStartIndex)])
  }

  /** The text of the blocks, concatenated in order. */
  function Texts(blocks: seq<Block>): string
  {
    if blocks == [] then [] else blocks[0].text + Texts(blocks[1..])
  }

  lemma {:induction false} TextsAppend(a: seq<Block>, b: seq<Block>)
    ensures Texts(a + b) == Texts(a) + Texts(b)
  {
    if a == [] {
      assert a + b == b;
    } else {
      assert (a + b)[1..] == a[1..] + b;
      TextsAppend(a[1..], b);
    }
  }

  lemma TextsPair(x: Block, y: Block)
    ensures Texts([x, y]) == x.text + y.text
  {
    assert [x, y][1..] == [y] && [y][1..] == [];
    assert Texts([y]) == y.text + Texts([]);
  }

  lemma SplitThree(s: string, i: nat, j: nat)
    requires i <= j <= |s|
    ensures s[..i] + s[i..j] + s[j..] == s
  {
    assert s[..i] + s[i..j] == s[..j];
  }

  /** One step of the round trip: a normal and a label block followed by the rest cover the text they were cut from. */
  lemma TextsStep(blocks: seq<Block>, x: Block, y: Block, rest: string, r: seq<Block>)
    requires Texts(r) == Texts(blocks + [x, y]) + rest
    ensures Texts(r) == Texts(blocks) + (x.text + y.text + rest)
  {
    TextsAppend(blocks, [x, y]);
    TextsPair(x, y);
    var a := Texts(blocks);
    assert (a + (x.text + y.text)) + rest == a + (x.text + y.text + rest);
  }

  /**
   * `parse` on a text holding a `[` with a later `]`: one normal block up to
   * the innermost `[` before that `]`, one label block up to the `]`, and the
   * call on the rest.
   */
  lemma ParseUnfold(text: string, start: nat, blocks: seq<Block>, s: int, e: int, m: nat)
    requires 0 <= s && s == IndexOf(text, '[', 0)
    requires 0 <= e && e == IndexOf(text, ']', s)
    requires m == LastOpenBefore(text, s, e)
    ensures Parse(text, start, blocks) ==
            Parse(text[e + 1..], e + 1, blocks + [Block(Normal, text[..m], start), Block(Label, text[m..e + 1], m)])
  {
  }

  /** `parse` on a non-empty text with no `[` that a later `]` closes: one normal block. */
  lemma ParseOpenEnded(text: string, start: nat, blocks: seq<Block>)
    requires |text| > 0
    requires IndexOf(text, '[', 0) < 0 || IndexOf(text, ']', IndexOf(text, '[', 0)) < 0
    ensures Parse(text, start, blocks) == blocks + [Block(Normal, text, start)]
  {
  }

  /** Round trip: the blocks `parse` appends concatenate back to the text it was given. */
  lemma {:induction false} ParseRoundTrip(text: string, start: nat, blocks: seq<Block>)
    ensures Texts(Parse(text, start, blocks)) == Texts(blocks) + text
    decreases |text|
  {
    var s := IndexOf(text, '[', 0);
    var e := if s < 0 then -1 else IndexOf(text, ']', s);
    if |text| == 0 || s < 0 || e < 0 {
      RoundTripOpenEnded(text, start, blocks);
    } else {
      var m := LastOpenBefore(text, s, e);
      var x, y := Block(Normal, text[..m], start), Block(Label, text[m..e + 1], m);
      ParseRoundTrip(text[e + 1..], e + 1, blocks + [x, y]);
      RoundTripClosed(text, start, blocks, s, e, m);
    }
  }

  /** The round trip when `parse` finds no closed bracket. */
  lemma RoundTripOpenEnded(text: string, start: nat, blocks: seq<Block>)
    requires |text| == 0 || IndexOf(text, '[', 0) < 0 || IndexOf(text, ']', IndexOf(text, '[', 0)) < 0
    ensures Texts(Parse(text, start, blocks)) == Texts(blocks) + text
  {
    if |text| == 0 {
      assert Texts(blocks) + text == Texts(blocks);
    } else {
      ParseOpenEnded(text, start, blocks);
      TextsLast(blocks, Block(Normal, text, start));
    }
  }

  /** The round trip after one closed bracket, given the round trip of the rest. */
  lemma RoundTripClosed(text: string, start: nat, blocks: seq<Block>, s: int, e: int, m: nat)
    requires 0 <= s && s == IndexOf(text, '[', 0)
    requires 0 <= e && e == IndexOf(text, ']', s)
    requires m == LastOpenBefore(text, s, e)
    requires var step := [Block(Normal, text[..m], start), Block(Label, text[m..e + 1], m)];
             Texts(Parse(text[e + 1..], e + 1, blocks + step)) == Texts(blocks + step) + text[e + 1..]
    ensures Texts(Parse(text, start, blocks)) == Texts(blocks) + text
  {
    var x, y := Block(Normal, text[..m], start), Block(Label, text[m..e + 1], m);
    ParseUnfold(text, start, blocks, s, e, m);
    TextsStep(blocks, x, y, text[e + 1..], Parse(text[e + 1..], e + 1, blocks + [x, y]));
    SplitThree(text, m, e + 1);
  }

  lemma TextsLast(blocks: seq<Block>, b: Block)
    ensures Texts(blocks + [b]) == Texts(blocks) + b.text
  {
    TextsAppend(blocks, [b]);
    assert Texts([b]) == b.text + Texts([]);
  }

  /** A label's text: `[`, then no bracket at all, then `]`. */
  predicate IsLabelText(t: string)
  {
    |t| >= 2 && t[0] == '[' && t[|t| - 1] == ']' &&
    forall k :: 0 < k < |t| - 1 ==> t[k] != '[' && t[k] != ']'
  }

  /**
   * From index `k` on, normal and label blocks alternate, starting with a
   * normal block, and every label has the label shape.
   */
  predicate AlternatesFrom(r: seq<Block>, k: nat)
  {
    forall i :: k <= i < |r| ==>
      (r[i].kind == Label <==> (i - k) % 2 == 1) &&
      (r[i].kind == Label ==> IsLabelText(r[i].text))
  }

  /** The label a step of `parse` cuts out has the label shape. */
  lemma StepLabel(text: string, s: int, e: int)
    requires 0 <= s && s == IndexOf(text, '[', 0)
    requires 0 <= e && e == IndexOf(text, ']', s)
    ensures IsLabelText(text[LastOpenBefore(text, s, e)..e + 1])
  {
    var m := LastOpenBefore(text, s, e);
    IndexOfFirst(text, ']', s);
    LastOpenBeforeIsLast(text, s, e);
    var labelText := text[m..e + 1];
    forall k | 0 < k < |labelText| - 1
      ensures labelText[k] != '[' && labelText[k] != ']'
    {
      assert labelText[k] == text[m + k];
    }
  }

  /** Shape of what `parse` appends: alternating normal and label blocks, labels well formed. */
  lemma {:induction false} ParseShape(text: string, start: nat, blocks: seq<Block>)
    ensures AlternatesFrom(Parse(text, start, blocks), |blocks|)
    decreases |text|
  {
    var s := IndexOf(text, '[', 0);
    var e := if s < 0 then -1 else IndexOf(text, ']', s);
    if |text| == 0 || s < 0 || e < 0 {
      ShapeOpenEnded(text, start, blocks);
    } else {
      var m := LastOpenBefore(text, s, e);
      var x, y := Block(Normal, text[..m], start), Block(Label, text[m..e + 1], m);
      ParseShape(text[e + 1..], e + 1, blocks + [x, y]);
      ShapeClosed(text, start, blocks, s, e, m);
    }
  }

  /** The shape when `parse` finds no closed bracket: at most one normal block is appended. */
  lemma ShapeOpenEnded(text: string, start: nat, blocks: seq<Block>)
    requires |text| == 0 || IndexOf(text, '[', 0) < 0 || IndexOf(text, ']', IndexOf(text, '[', 0)) < 0
    ensures AlternatesFrom(Parse(text, start, blocks), |blocks|)
  {
    if |text| > 0 {
      ParseOpenEnded(text, start, blocks);
    }
  }

  /** The shape after one closed bracket, given the shape of the rest. */
  lemma ShapeClosed(text: string, start: nat, blocks: seq<Block>, s: int, e: int, m: nat)
    requires 0 <= s && s == IndexOf(text, '[', 0)
    requires 0 <= e && e == IndexOf(text, ']', s)
    requires m == LastOpenBefore(text, s, e)
    requires var step := [Block(Normal, text[..m], start), Block(Label, text[m..e + 1], m)];
             AlternatesFrom(Parse(text[e + 1..], e + 1, blocks + step), |blocks + step|)
    ensures AlternatesFrom(Parse(text, start, blocks), |blocks|)
  {
    var x, y := Block(Normal, text[..m], start), Block(Label, text[m..e + 1], m);
    StepLabel(text, s, e);
    ParseUnfold(text, start, blocks, s, e, m);
    ShapeStep(blocks, x, y, Parse(text[e + 1..], e + 1, blocks + [x, y]));
  }

  /** The alternation carries over from the blocks after one step to the blocks before it. */
  lemma ShapeStep(blocks: seq<Block>, x: Block, y: Block, r: seq<Block>)
    requires x.kind == Normal && y.kind == Label && IsLabelText(y.text)
    requires |r| >= |blocks + [x, y]| && r[..|blocks + [x, y]|] == blocks + [x, y]
    requires AlternatesFrom(r, |blocks + [x, y]|)
    ensures AlternatesFrom(r, |blocks|)
  {
    var n := |blocks|;
    forall i | n <= i < |r|
      ensures (r[i].kind == Label <==> (i - n) % 2 == 1) &&
              (r[i].kind == Label ==> IsLabelText(r[i].text))
    {
      if i < n + 2 {
        assert r[i] == r[..n + 2][i] == [x, y][i - n];
      } else {
        assert (i - (n + 2)) % 2 == (i - n) % 2;
      }
    }
  }

  /** Whether the text holds a `[` with a `]` somewhere after it. */
  predicate HasClosedBracket(text: string)
  {
    exists i, j :: 0 <= i < j < |text| && text[i] == '[' && text[j] == ']'
  }

  /**
   * Degenerate inputs: empty text leaves the blocks as they are, and text
   * without a `[` that a later `]` closes (no `[` at all, an unterminated
   * `[`, a `]` before any `[`) becomes exactly one normal block; any other
   * text yields at least a normal and a label block.
   */
  lemma ParsePlain(text: string, start: nat, blocks: seq<Block>)
    ensures |text| == 0 ==> Parse(text, start, blocks) == blocks
    ensures |text| > 0 && !HasClosedBracket(text) ==>
              Parse(text, start, blocks) == blocks + [Block(Normal, text, start)]
    ensures HasClosedBracket(text) ==> |Parse(text, start, blocks)| >= |blocks| + 2
  {
    if HasClosedBracket(text) {
      var i, j :| 0 <= i < j < |text| && text[i] == '[' && text[j] == ']';
      IndexOfFirst(text, '[', 0);
      var startIndex := IndexOf(text, '[', 0);
      assert startIndex >= 0 && startIndex <= i;
      IndexOfFirst(text, ']', startIndex);
      var endIndex := IndexOf(text, ']', startIndex);
      assert endIndex >= 0;
    } else if |text| > 0 {
      var startIndex := IndexOf(text, '[', 0);
      if startIndex >= 0 {
        IndexOfFirst(text, ']', startIndex);
        assert IndexOf(text, ']', startIndex) < 0;
      }
    }
  }

  /**
   * One step of `parse`, stated without the search functions: the label
   * opens at the right-most `[` before the first `]` that follows the first
   * `[`. Its `start` is relative to the current text, and the next step gets
   * the index after the `]`.
   */
  lemma ParseStep(text: string, start: nat, blocks: seq<Block>, first: nat, close: nat, open: nat)
    requires first <= open < close < |text|
    requires text[first] == '[' && forall k :: 0 <= k < first ==> text[k] != '['
    requires text[close] == ']' && forall k :: first <= k < close ==> text[k] != ']'
    requires text[open] == '[' && forall k :: open < k < close ==> text[k] != '['
    ensures Parse(text, start, blocks) ==
            Parse(text[close + 1..], close + 1,
                  blocks + [Block(Normal, text[..open], start), Block(Label, text[open..close + 1], open)])
  {
    IndexOfAt(text, '[', 0, first);
    IndexOfAt(text, ']', first, close);
    LastOpenAt(text, first, close, open);
    ParseUnfold(text, start, blocks, first, close, open);
  }

  /** `"[[ab]"`: the outer `[` stays plain text and the label binds to the inner one. */
  lemma ParseNested()
    ensures Parse("[[ab]", 0, []) == [Block(Normal, "[", 0), Block(Label, "[ab]", 1)]
  {
    var text := "[[ab]";
    ParseStep(text, 0, [], 0, 4, 1);
    assert text[5..] == [];
    assert text[..1] == "[" && text[1..5] == "[ab]";
  }

  /**
   * Two labels side by side, such as `"[a][b]"`: each comes with an empty
   * normal block, and the second label's `start` is 0, its index in the
   * text left after the first label, not its index in the whole text.
   */
  lemma ParseAdjacent(first: string, second: string, start: nat, blocks: seq<Block>)
    requires IsLabelText(first) && IsLabelText(second)
    ensures Parse(first + second, start, blocks) ==
            blocks + [Block(Normal, "", start), Block(Label, first, 0),
                      Block(Normal, "", |first|), Block(Label, second, 0)]
  {
    var acc := blocks + [Block(Normal, "", start), Block(Label, first, 0)];
    ParseLabelFirst(first, second, start, blocks);
    ParseWholeLabel(second, |first|, acc);
    AppendPairs(blocks, Block(Normal, "", start), Block(Label, first, 0), Block(Normal, "", |first|), Block(Label, second, 0));
  }

  /** A text that starts with a label: an empty normal block, the label at 0, and `parse` goes on after it. */
  lemma ParseLabelFirst(labelText: string, rest: string, start: nat, blocks: seq<Block>)
    requires IsLabelText(labelText)
    ensures Parse(labelText + rest, start, blocks) ==
            Parse(rest, |labelText|, blocks + [Block(Normal, "", start), Block(Label, labelText, 0)])
  {
    var text, n := labelText + rest, |labelText|;
    forall k | 0 <= k < n
      ensures text[k] == labelText[k]
    {
    }
    ParseStep(text, start, blocks, 0, n - 1, 0);
    assert text[n..] == rest && text[..0] == "" && text[0..n] == labelText;
  }

  /** A text that is one label and nothing else gives an empty normal block and the label, which starts at 0. */
  lemma ParseWholeLabel(labelText: string, start: nat, blocks: seq<Block>)
    requires IsLabelText(labelText)
    ensures Parse(labelText, start, blocks) == blocks + [Block(Normal, "", start), Block(Label, labelText, 0)]
  {
    ParseLabelFirst(labelText, "", start, blocks);
    assert labelText + "" == labelText;
  }

  lemma AppendPairs(blocks: seq<Block>, a: Block, b: Block, c: Block, d: Block)
    ensures blocks + [a, b] + [c, d] == blocks + [a, b, c, d]
  {
  }

  /** `"a[b]"`: the plain "a" followed by the label "[b]" starting at index 1. */
  lemma ParseClosed()
    ensures Parse("a[b]", 0, []) == [Block(Normal, "a", 0), Block(Label, "[b]", 1)]
  {
    var text := "a[b]";
    ParseStep(text, 0, [], 1, 3, 1);
    assert text[4..] == [] && text[..1] == "a" && text[1..4] == "[b]";
  }

  /** `"ab"`: text without brackets is a single normal block. */
  lemma ParseUnbracketed()
    ensures Parse("ab", 0, []) == [Block(Normal, "ab", 0)]
  {
    assert IndexOf("ab", '[', 0) == -1;
  }

  /**
   * `blocks.filter((b) => b.type === "label")`: every label block and nothing
   * else.
   */
  function Labels(blocks: seq<Block>): (r: seq<Block>)
    ensures forall b :: b in r ==> b in blocks && b.kind == Label
    ensures forall b :: b in blocks && b.kind == Label ==> b in r
    ensures |r| <= |blocks|
  {
    if blocks == [] then []
    else (if blocks[0].kind == Label then [blocks[0]] else []) + Labels(blocks[1..])
  }

  /** The filter keeps as many blocks as it is given exactly when all of them are labels. */
  lemma {:induction false} LabelsKeepAll(blocks: seq<Block>)
    ensures |Labels(blocks)| == |blocks| <==> forall i :: 0 <= i < |blocks| ==> blocks[i].kind == Label
  {
    if blocks != [] {
      var tail := blocks[1..];
      LabelsKeepAll(tail);
      assert forall i :: 1 <= i < |blocks| ==> blocks[i] == tail[i - 1];
      if blocks[0].kind == Label {
        assert |Labels(blocks)| == 1 + |Labels(tail)|;
        if forall i :: 0 <= i < |tail| ==> tail[i].kind == Label {
          assert forall i :: 0 <= i < |blocks| ==> blocks[i].kind == Label;
        }
      } else {
        assert |Labels(blocks)| == |Labels(tail)| <= |tail| < |blocks|;
      }
    }
  }

  /** The filter keeps the order of the blocks: the labels of two runs of blocks, one after the other. */
  lemma {:induction false} LabelsAppend(a: seq<Block>, b: seq<Block>)
    ensures Labels(a + b) == Labels(a) + Labels(b)
  {
    if a == [] {
      assert a + b == b;
    } else {
      var head := if a[0].kind == Label then [a[0]] else [];
      assert (a + b)[0] == a[0] && (a + b)[1..] == a[1..] + b;
      assert Labels(a + b) == head + Labels(a[1..] + b);
      LabelsAppend(a[1..], b);
      assert head + (Labels(a[1..]) + Labels(b)) == (head + Labels(a[1..])) + Labels(b);
    }
  }

  /** The HTML of one block: a plain span, or an empty non-editable span carrying the label text. */
  function BlockHtml(b: Block): string
  {
    match b.kind
    case Normal => "<span>" + b.text + "</span>"
    case Label => "<span contenteditable=\"false\" class=\"label\" data-text=\"" + b.text + "\"></span>"
  }

  /** `strings.join("")`. */
  function Join(parts: seq<string>): string
  {
    if parts == [] then [] else parts[0] + Join(parts[1..])
  }

  /** `blocks.map(...)`: the span of every block, in order. */
  function Spans(blocks: seq<Block>): seq<string>
  {
    if blocks == [] then [] else [BlockHtml(blocks[0])] + Spans(blocks[1..])
  }

  /** `toHtml`: map every block to its span, then join the spans. */
  function ToHtml(blocks: seq<Block>): string
  {
    Join(Spans(blocks))
  }

  lemma {:induction false} SpansAppend(a: seq<Block>, b: seq<Block>)
    ensures Spans(a + b) == Spans(a) + Spans(b)
  {
    if a == [] {
      assert a + b == b;
    } else {
      assert (a + b)[1..] == a[1..] + b;
      SpansAppend(a[1..], b);
    }
  }

  lemma {:induction false} JoinAppend(a: seq<string>, b: seq<string>)
    ensures Join(a + b) == Join(a) + Join(b)
  {
    if a == [] {
      assert a + b == b;
    } else {
      assert (a + b)[1..] == a[1..] + b;
      JoinAppend(a[1..], b);
    }
  }

  /**
   * The HTML is the spans of the blocks, in block order: the spans of any
   * two consecutive runs of blocks are concatenated, an empty list gives
   * the empty string and a single block gives its own span.
   */
  lemma ToHtmlAppend(a: seq<Block>, b: seq<Block>)
    ensures ToHtml([]) == ""
    ensures ToHtml(a + b) == ToHtml(a) + ToHtml(b)
    ensures |a| == 1 ==> ToHtml(a) == BlockHtml(a[0])
  {
    SpansAppend(a, b);
    JoinAppend(Spans(a), Spans(b));
    if |a| == 1 {
      assert Spans(a) == [BlockHtml(a[0])] && Spans(a)[1..] == [];
    }
  }
}
