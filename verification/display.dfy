/** The client's pure display helpers: force-layout distances, node sizes
    and colours by generation, the search-result comparator, the
    visibility icon, tag-line wrapping and the fallback HTML escape. */
module Display {
  import opened Wrappers
  import Strings

  /** `generation || 0`: a node whose generation was never set counts as
      generation 0. */
  function Generation(g: Option<nat>): nat
  {
    if g.Some? then g.value else 0
  }

  /** `getLinkDistance`: 100 at the roots, 40 shorter per generation of the
      link's source, never below 20. */
  function LinkDistance(sourceGeneration: Option<nat>): (d: int)
    ensures 20 <= d <= 100
    ensures d == 100 <==> Generation(sourceGeneration) == 0
    ensures Generation(sourceGeneration) == 1 ==> d == 60
    ensures Generation(sourceGeneration) >= 2 ==> d == 20
  {
    var g := Generation(sourceGeneration);
    if 100 - g * 40 >= 20 then 100 - g * 40 else 20
  }

  /** Deeper sources never get longer links. */
  lemma LinkDistanceNonIncreasing(g1: nat, g2: nat)
    requires g1 <= g2
    ensures LinkDistance(Some(g2)) <= LinkDistance(Some(g1))
  {
    assert g1 * 40 <= g2 * 40;
  }

  const NodeSizes: seq<int> := [12, 10, 8]

  /** `Math.min(generation, length - 1)`: the clamped index is always in
      bounds for a table of `n` entries. */
  function ClampIndex(generation: nat, n: nat): (i: nat)
    requires n > 0
    ensures i < n
    ensures generation < n ==> i == generation
    ensures generation >= n ==> i == n - 1
  {
    if generation < n - 1 then generation else n - 1
  }

  /** `getNodeSize`. */
  function NodeSize(generation: Option<nat>): (size: int)
    ensures size == (if Generation(generation) == 0 then 12 else if Generation(generation) == 1 then 10 else 8)
  {
    NodeSizes[ClampIndex(Generation(generation), |NodeSizes|)]
  }

  /** Deeper nodes are never drawn larger. */
  lemma NodeSizeNonIncreasing(g1: nat, g2: nat)
    requires g1 <= g2
    ensures NodeSize(Some(g2)) <= NodeSize(Some(g1))
  {
  }

  const UnselectedColours: seq<string> := ["#2d3436", "#636e72", "#b2bec3", "#dfe6e9"]
  const SelectedColours: seq<string> := ["#d35400", "#e67e22", "#f39c12", "#f1c40f"]

  /** `getNodeColor`: the palette is chosen by selection, the shade by the
      clamped generation. */
  function NodeColour(generation: Option<nat>, selected: bool): (colour: string)
    ensures selected ==> colour in SelectedColours
    ensures !selected ==> colour in UnselectedColours
  {
    var palette := if selected then SelectedColours else UnselectedColours;
    palette[ClampIndex(Generation(generation), |palette|)]
  }

  /** A selected node never shares a colour with an unselected one. */
  lemma SelectionAlwaysVisible(g1: Option<nat>, g2: Option<nat>)
    ensures NodeColour(g1, true) != NodeColour(g2, false)
  {
  }

  /** Within one palette the first four generations get distinct shades,
      and every deeper generation shares the fourth. */
  lemma ShadesByGeneration(g1: nat, g2: nat, selected: bool)
    ensures g1 < 4 && g2 < 4 && g1 != g2 ==> NodeColour(Some(g1), selected) != NodeColour(Some(g2), selected)
    ensures g1 >= 3 && g2 >= 3 ==> NodeColour(Some(g1), selected) == NodeColour(Some(g2), selected)
  {
  }

  /** The numeric fields a search result is sorted on. */
  datatype SearchResult = SearchResult(rating: int, date: int, visibility: int, mmr: int)

  /** The value of `sortCriteria` split at '-': the criterion, and the
      order when there is a second piece. */
  function SortCriteria(value: string): (r: (string, Option<string>))
    ensures '-' !in value ==> r == (value, None)
    ensures forall criterion, order | value == criterion + "-" + order && '-' !in criterion && '-' !in order ::
              r == (criterion, Some(order))
  {
    var parts := Strings.Split(value, '-');
    if '-' !in value then
      Strings.SplitWithout(value, '-');
      (value, None)
    else
      assert forall criterion, order | value == criterion + "-" + order && '-' !in criterion && '-' !in order ::
               parts == [criterion, order] by {
        forall criterion, order | value == criterion + "-" + order && '-' !in criterion && '-' !in order
          ensures parts == [criterion, order]
        {
          Strings.SplitAtOnlySeparator(criterion, order, '-');
        }
      }
      (parts[0], if |parts| >= 2 then Some(parts[1]) else None)
  }

  /** The ascending comparison of the `switch`; 0 for any other
      criterion. */
  function Ascending(criterion: string, a: SearchResult, b: SearchResult): int
  {
    match criterion
    case "stars" => a.rating - b.rating
    case "date" => a.date - b.date
    case "visibility" => a.visibility - b.visibility
    case "mmr" => a.mmr - b.mmr
    case _ => 0
  }

  predicate KnownCriterion(criterion: string)
  {
    criterion in {"stars", "date", "visibility", "mmr"}
  }

  /** The key a known criterion sorts by. */
  function Key(criterion: string, a: SearchResult): int
  {
    match criterion
    case "stars" => a.rating
    case "date" => a.date
    case "visibility" => a.visibility
    case _ => a.mmr
  }

  /** The comparator passed to `results.sort`: negated for the order
      "desc", ascending for every other order, including a missing one. */
  function Compare(criterion: string, order: Option<string>, a: SearchResult, b: SearchResult): (c: int)
    ensures !KnownCriterion(criterion) ==> c == 0
    ensures KnownCriterion(criterion) && order != Some("desc") ==> (c < 0 <==> Key(criterion, a) < Key(criterion, b))
    ensures KnownCriterion(criterion) && order == Some("desc") ==> (c < 0 <==> Key(criterion, a) > Key(criterion, b))
    ensures KnownCriterion(criterion) ==> (c == 0 <==> Key(criterion, a) == Key(criterion, b))
  {
    var comparison := Ascending(criterion, a, b);
    if order == Some("desc") then -comparison else comparison
  }

  /** The comparator is antisymmetric, and "desc" is exactly the negation
      of the ascending order. */
  lemma CompareAntisymmetric(criterion: string, order: Option<string>, a: SearchResult, b: SearchResult)
    ensures Compare(criterion, order, a, b) == -Compare(criterion, order, b, a)
    ensures Compare(criterion, Some("desc"), a, b) == -Compare(criterion, Some("asc"), a, b)
    ensures Compare(criterion, None, a, b) == Compare(criterion, Some("asc"), a, b)
  {
  }

  const Unlocked: string := "\U{1F513}"
  const Locked: string := "\U{1F512}"
  const LockedWithKey: string := "\U{1F510}"
  const LockedWithPen: string := "\U{1F50F}"

  /** `getVisibilityEmoji`. */
  function VisibilityEmoji(visibility: int): (icon: string)
    ensures icon == Unlocked <==> visibility == 1 || !(1 <= visibility <= 4)
    ensures icon in {Unlocked, Locked, LockedWithKey, LockedWithPen}
  {
    match visibility
    case 1 => Unlocked
    case 2 => Locked
    case 3 => LockedWithKey
    case 4 => LockedWithPen
    case _ => Unlocked
  }

  /** Levels 1 to 4 get four different icons; level 5 shares level 1's. */
  lemma VisibilityEmojiDistinct(v1: int, v2: int)
    requires 1 <= v1 <= 4 && 1 <= v2 <= 4 && v1 != v2
    ensures VisibilityEmoji(v1) != VisibilityEmoji(v2)
    ensures VisibilityEmoji(5) == VisibilityEmoji(1)
  {
  }

  /** Every piece trimmed. */
  function TrimAll(parts: seq<string>): (r: seq<string>)
    ensures |r| == |parts|
    ensures forall i | 0 <= i < |r| :: r[i] == Strings.Trim(parts[i])
  {
    seq(|parts|, i requires 0 <= i < |parts| => Strings.Trim(parts[i]))
  }

  /** The `forEach` of `wrapTags` over the remaining trimmed tags with the
      line being built: the first tag of a line always starts it; a further
      tag joins it with ", " when the result fits in `maxLen`, and
      otherwise the line is emitted and the tag starts the next. An empty
      line is never emitted. */
  function PackLines(tags: seq<string>, current: string, maxLen: nat): (lines: seq<string>)
    ensures forall i | 0 <= i < |lines| :: |lines[i]| > 0
    ensures |current| > 0 ==> |lines| > 0
    ensures forall i | 0 <= i < |lines| :: lines[i] == current || lines[i] in tags || |lines[i]| <= maxLen
    decreases |tags|
  {
    if |tags| == 0 then (if |current| > 0 then [current] else [])
    else
      var tag := tags[0];
      var rest := PackLines(tags[1..], if |current| == 0 || |current| + |tag| + 2 <= maxLen
                                       then (if |current| == 0 then tag else current + ", " + tag)
                                       else tag, maxLen);
      if |current| == 0 || |current| + |tag| + 2 <= maxLen then rest
      else [current] + rest
  }

  /** `wrapTags(tags)`: the comma-separated tag string split, trimmed and
      packed into lines of at most 30 characters, or of 1 in tall mode
      (the window's shape is a parameter). */
  function WrapTags(tags: string, tall: bool): (lines: seq<string>)
    ensures forall i | 0 <= i < |lines| :: |lines[i]| > 0
    ensures forall i | 0 <= i < |lines| ::
              lines[i] in TrimAll(Strings.Split(tags, ',')) || |lines[i]| <= (if tall then 1 else 30)
  {
    PackLines(TrimAll(Strings.Split(tags, ',')), "", if tall then 1 else 30)
  }

  predicate AllNonEmpty(tags: seq<string>)
  {
    forall i | 0 <= i < |tags| :: |tags[i]| > 0
  }

  /** The three ways one tag is taken: starting the first line, joining
      the current line, or emitting it and starting the next. */
  lemma PackLinesUnfold(tags: seq<string>, current: string, maxLen: nat)
    requires |tags| > 0
    ensures |current| == 0 ==> PackLines(tags, current, maxLen) == PackLines(tags[1..], tags[0], maxLen)
    ensures |current| > 0 && |current| + |tags[0]| + 2 <= maxLen ==>
              PackLines(tags, current, maxLen) == PackLines(tags[1..], current + ", " + tags[0], maxLen)
    ensures |current| > 0 && |current| + |tags[0]| + 2 > maxLen ==>
              PackLines(tags, current, maxLen) == [current] + PackLines(tags[1..], tags[0], maxLen)
  {
  }

  /** The joined text `current` stands for, followed by the tags still to
      come. */
  function Pending(current: string, tags: seq<string>): string
  {
    if |current| == 0 then Strings.Join(tags, ", ")
    else if |tags| == 0 then current
    else current + ", " + Strings.Join(tags, ", ")
  }

  lemma PendingStep(current: string, tags: seq<string>)
    requires |tags| > 0 && |tags[0]| > 0
    ensures |current| == 0 ==> Pending(current, tags) == Pending(tags[0], tags[1..])
    ensures |current| > 0 ==> Pending(current, tags) == Pending(current + ", " + tags[0], tags[1..])
    ensures |current| > 0 ==> Pending(current, tags) == current + ", " + Pending(tags[0], tags[1..])
  {
    if |tags| >= 2 {
      Strings.JoinTail(tags, ", ");
    }
  }

  /** Packing loses and adds nothing: when no tag is empty, the lines
      joined with ", " read the same as the tags joined with ", ". */
  lemma {:induction false} PackLinesJoin(tags: seq<string>, current: string, maxLen: nat)
    requires AllNonEmpty(tags)
    ensures Strings.Join(PackLines(tags, current, maxLen), ", ") == Pending(current, tags)
    decreases |tags|
  {
    if |tags| > 0 {
      var tag := tags[0];
      var rest := tags[1..];
      assert AllNonEmpty(rest) by {
        forall i | 0 <= i < |rest| ensures |rest[i]| > 0 {
          assert rest[i] == tags[i + 1];
        }
      }
      assert |tag| > 0;
      PackLinesUnfold(tags, current, maxLen);
      PendingStep(current, tags);
      if |current| == 0 {
        PackLinesJoin(rest, tag, maxLen);
      } else if |current| + |tag| + 2 <= maxLen {
        PackLinesJoin(rest, current + ", " + tag, maxLen);
      } else {
        PackLinesJoin(rest, tag, maxLen);
        Strings.JoinCons(current, PackLines(rest, tag, maxLen), ", ");
      }
    }
  }

  /** The tags that are not empty, in order. */
  function NonEmptyTags(tags: seq<string>): (r: seq<string>)
    ensures forall t :: t in r <==> t in tags && |t| > 0
  {
    if |tags| == 0 then []
    else (if |tags[0]| > 0 then [tags[0]] else []) + NonEmptyTags(tags[1..])
  }

  /** With a line limit of 1 no two tags ever share a line: every
      non-empty tag is a line of its own, in order. */
  lemma {:induction false} PackLinesTall(tags: seq<string>, current: string)
    ensures PackLines(tags, current, 1) == (if |current| > 0 then [current] else []) + NonEmptyTags(tags)
    decreases |tags|
  {
    if |tags| > 0 {
      PackLinesTall(tags[1..], tags[0]);
    }
  }

  /** In tall mode each non-empty trimmed tag is alone on its own line. */
  lemma WrapTagsTall(tags: string)
    ensures WrapTags(tags, true) == NonEmptyTags(TrimAll(Strings.Split(tags, ',')))
  {
    PackLinesTall(TrimAll(Strings.Split(tags, ',')), "");
  }

  /** When no trimmed tag is empty, wrapping keeps every tag and every
      separator. */
  lemma WrapTagsJoin(tags: string, tall: bool)
    requires AllNonEmpty(TrimAll(Strings.Split(tags, ',')))
    ensures Strings.Join(WrapTags(tags, tall), ", ") == Strings.Join(TrimAll(Strings.Split(tags, ',')), ", ")
  {
    PackLinesJoin(TrimAll(Strings.Split(tags, ',')), "", if tall then 1 else 30);
  }

  /** The `parseMarkdown` fallback: four global replaces, `&` first. */
  function EscapeFallback(text: string): (out: string)
    ensures '\n' !in out
    ensures '&' !in text && '<' !in text && '>' !in text && '\n' !in text ==> out == text
  {
    var amp := Strings.ReplaceChar(text, '&', "&amp;");
    var lt := Strings.ReplaceChar(amp, '<', "&lt;");
    var gt := Strings.ReplaceChar(lt, '>', "&gt;");
    Strings.ReplaceChar(gt, '\n', "<br>")
  }

  /** What one character becomes. */
  function EscapeChar(c: char): string
  {
    if c == '&' then "&amp;"
    else if c == '<' then "&lt;"
    else if c == '>' then "&gt;"
    else if c == '\n' then "<br>"
    else [c]
  }

  /** The escape as a single left-to-right pass. */
  function Escape(text: string): string
  {
    if |text| == 0 then "" else EscapeChar(text[0]) + Escape(text[1..])
  }

  /** Because `&` is replaced first, no entity a later pass inserts is
      escaped again: the four passes equal the single character-wise
      pass. */
  lemma {:induction false} EscapeFallbackIsCharwise(text: string)
    ensures EscapeFallback(text) == Escape(text)
    decreases |text|
  {
    if |text| > 0 {
      var c := text[0];
      var rest := text[1..];
      assert text == [c] + rest;
      EscapeFallbackIsCharwise(rest);
      var amp := Strings.ReplaceChar([c], '&', "&amp;");
      var lt := Strings.ReplaceChar(amp, '<', "&lt;");
      var gt := Strings.ReplaceChar(lt, '>', "&gt;");
      Strings.ReplaceCharAppend([c], rest, '&', "&amp;");
      var ampRest := Strings.ReplaceChar(rest, '&', "&amp;");
      Strings.ReplaceCharAppend(amp, ampRest, '<', "&lt;");
      var ltRest := Strings.ReplaceChar(ampRest, '<', "&lt;");
      Strings.ReplaceCharAppend(lt, ltRest, '>', "&gt;");
      var gtRest := Strings.ReplaceChar(ltRest, '>', "&gt;");
      Strings.ReplaceCharAppend(gt, gtRest, '\n', "<br>");
      assert Strings.ReplaceChar(gt, '\n', "<br>") == EscapeChar(c) by {
        EscapeOneChar(c);
      }
    }
  }

  lemma EscapeOneChar(c: char)
    ensures Strings.ReplaceChar(Strings.ReplaceChar(Strings.ReplaceChar(Strings.ReplaceChar(
              [c], '&', "&amp;"), '<', "&lt;"), '>', "&gt;"), '\n', "<br>") == EscapeChar(c)
  {
    Strings.ReplaceSingle(c, '&', "&amp;");
    if c == '&' {
      EscapeEntityUntouched("&amp;");
    } else {
      Strings.ReplaceSingle(c, '<', "&lt;");
      if c == '<' {
        EscapeEntityUntouched("&lt;");
      } else {
        Strings.ReplaceSingle(c, '>', "&gt;");
        if c == '>' {
          var gt: string := "&gt;";
          Strings.ReplaceSingle(c, '\n', "<br>");
          assert '\n' !in gt;
        } else {
          Strings.ReplaceSingle(c, '\n', "<br>");
        }
      }
    }
  }

  /** An inserted entity passes the later replaces unchanged. */
  lemma EscapeEntityUntouched(entity: string)
    requires entity in {"&amp;", "&lt;"}
    ensures Strings.ReplaceChar(Strings.ReplaceChar(Strings.ReplaceChar(
              entity, '<', "&lt;"), '>', "&gt;"), '\n', "<br>") == entity
  {
    assert '<' !in entity && '>' !in entity && '\n' !in entity;
  }

  /** `sub` occurs in `text` starting at `i`. */
  predicate StartsAt(text: string, sub: string, i: int)
  {
    0 <= i && i + |sub| <= |text| && text[i..i + |sub|] == sub
  }

  /** Every `<` and `>` of the escaped text belongs to an inserted `<br>`. */
  predicate AnglesOnlyInBreaks(out: string)
  {
    && (forall i | 0 <= i < |out| && out[i] == '<' :: StartsAt(out, "<br>", i))
    && (forall i | 0 <= i < |out| && out[i] == '>' :: StartsAt(out, "<br>", i - 3))
  }

  /** The property survives concatenation: no `<br>` is split across the
      seam because each side keeps its own angles inside its own tags. */
  lemma AnglesOnlyInBreaksAppend(a: string, b: string)
    requires AnglesOnlyInBreaks(a) && AnglesOnlyInBreaks(b)
    ensures AnglesOnlyInBreaks(a + b)
  {
    var out := a + b;
    forall i | 0 <= i < |out| && out[i] == '<' ensures StartsAt(out, "<br>", i) {
      if i < |a| {
        assert a[i] == '<' && StartsAt(a, "<br>", i);
        assert out[i..i + 4] == a[i..i + 4];
      } else {
        assert b[i - |a|] == '<' && StartsAt(b, "<br>", i - |a|);
        assert out[i..i + 4] == b[i - |a|..i - |a| + 4];
      }
    }
    forall i | 0 <= i < |out| && out[i] == '>' ensures StartsAt(out, "<br>", i - 3) {
      if i < |a| {
        assert a[i] == '>' && StartsAt(a, "<br>", i - 3);
        assert out[i - 3..i + 1] == a[i - 3..i + 1];
      } else {
        assert b[i - |a|] == '>' && StartsAt(b, "<br>", i - |a| - 3);
        assert out[i - 3..i + 1] == b[i - |a| - 3..i - |a| + 1];
      }
    }
  }

  lemma EscapeCharAngles(c: char)
    ensures AnglesOnlyInBreaks(EscapeChar(c))
  {
    var e := EscapeChar(c);
    if c == '\n' {
      assert e == "<br>";
      assert StartsAt(e, "<br>", 0);
      assert e[0..4] == "<br>";
    }
  }

  lemma {:induction false} EscapeAnglesOnlyInBreaks(text: string)
    ensures AnglesOnlyInBreaks(Escape(text))
    decreases |text|
  {
    if |text| > 0 {
      EscapeAnglesOnlyInBreaks(text[1..]);
      EscapeCharAngles(text[0]);
      AnglesOnlyInBreaksAppend(EscapeChar(text[0]), Escape(text[1..]));
    } else {
      assert Escape(text) == "";
    }
  }

  /** The fallback's output holds no `<` or `>` except those of the
      `<br>` tags it inserts, so the note text cannot open an HTML tag. */
  lemma EscapeFallbackSafe(text: string)
    ensures AnglesOnlyInBreaks(EscapeFallback(text))
  {
    EscapeFallbackIsCharwise(text);
    EscapeAnglesOnlyInBreaks(text);
  }

  /** Reads the escape back: each entity and `<br>` becomes its
      character again. */
  function Unescape(out: string): string
    decreases |out|
  {
    if |out| == 0 then ""
    else if StartsAt(out, "&amp;", 0) then "&" + Unescape(out[5..])
    else if StartsAt(out, "&lt;", 0) then "<" + Unescape(out[4..])
    else if StartsAt(out, "&gt;", 0) then ">" + Unescape(out[4..])
    else if StartsAt(out, "<br>", 0) then "\n" + Unescape(out[4..])
    else [out[0]] + Unescape(out[1..])
  }

  /** Reading back one escaped character. */
  lemma UnescapeStep(c: char, tail: string)
    ensures Unescape(EscapeChar(c) + tail) == [c] + Unescape(tail)
  {
    if c == '&' {
      UnescapeEntity("&amp;", '&', tail);
    } else if c == '<' {
      UnescapeEntity("&lt;", '<', tail);
    } else if c == '>' {
      UnescapeEntity("&gt;", '>', tail);
    } else if c == '\n' {
      UnescapeEntity("<br>", '\n', tail);
    } else {
      UnescapePlain(c, tail);
    }
  }

  lemma UnescapeEntity(entity: string, c: char, tail: string)
    requires (entity, c) in {("&amp;", '&'), ("&lt;", '<'), ("&gt;", '>'), ("<br>", '\n')}
    ensures Unescape(entity + tail) == [c] + Unescape(tail)
  {
    var out := entity + tail;
    assert out[..|entity|] == entity && out[|entity|..] == tail;
    assert StartsAt(out, entity, 0);
    if c != '&' {
      assert out[1] != 'a';
    }
  }

  lemma UnescapePlain(c: char, tail: string)
    requires c !in "&<>\n"
    ensures Unescape([c] + tail) == [c] + Unescape(tail)
  {
    var out := [c] + tail;
    assert out[0] == c && out[1..] == tail;
    assert !StartsAt(out, "&amp;", 0) && !StartsAt(out, "&lt;", 0);
    assert !StartsAt(out, "&gt;", 0) && !StartsAt(out, "<br>", 0);
  }

  /** The escape loses nothing: reading it back yields the original
      text. */
  lemma {:induction false} UnescapeEscape(text: string)
    ensures Unescape(Escape(text)) == text
    decreases |text|
  {
    if |text| > 0 {
      UnescapeEscape(text[1..]);
      UnescapeStep(text[0], Escape(text[1..]));
      assert text == [text[0]] + text[1..];
    }
  }
}
