/**
 * The diff loop of main (main.go:38-51): walk the feed items in order,
 * keep those dated strictly after the stored watermark, render a line for
 * each, and carry the running maximum of the kept dates, seeded from the
 * watermark.
 */
module DiffEngine {
  import opened Wrappers
  import opened Codec
  import opened DateResolver

  /** Time.Format("2006-01-02 at 15:04"): opaque, it depends on the parsed value's location. */
  type Formatter = Int64 -> string

  /** A feed item together with its effective date. */
  datatype DatedItem = DatedItem(item: Item, date: Int64)

  /** What the loop leaves behind: the new posts, in feed order, and the new watermark. */
  datatype Diff = Diff(lines: seq<string>, watermark: Int64)

  /**
   * The effective dates of all items, in feed order, or the fault of the
   * first item whose date cannot be resolved.
   */
  function ResolveAll(items: seq<Item>, parse: Parser): (r: Result<seq<DatedItem>, DateFault>)
    ensures r.Ok? <==> forall k :: 0 <= k < |items| ==> GetItemDate(items[k], parse).Ok?
    ensures r.Ok? ==> |r.value| == |items|
    ensures r.Ok? ==> forall k :: 0 <= k < |items| ==>
                        r.value[k] == DatedItem(items[k], GetItemDate(items[k], parse).value)
    ensures r.Err? ==> exists k :: 0 <= k < |items| && GetItemDate(items[k], parse) == Err(r.error)
                                   && forall j :: 0 <= j < k ==> GetItemDate(items[j], parse).Ok?
  {
    if items == [] then Ok([])
    else
      var last := items[|items| - 1];
      match ResolveAll(items[..|items| - 1], parse)
      case Err(e) => Err(e)
      case Ok(dated) =>
        match GetItemDate(last, parse)
        case Err(e) => Err(e)
        case Ok(date) => Ok(dated + [DatedItem(last, date)])
  }

  /** Once a prefix of the feed fails to resolve, the whole feed fails with the same fault. */
  lemma {:induction false} ResolveAllPrefixFault(items: seq<Item>, k: nat, parse: Parser)
    requires k <= |items|
    requires ResolveAll(items[..k], parse).Err?
    ensures ResolveAll(items, parse) == ResolveAll(items[..k], parse)
  {
    if k < |items| {
      var prefix := items[..|items| - 1];
      assert prefix[..k] == items[..k];
      ResolveAllPrefixFault(prefix, k, parse);
    } else {
      assert items[..k] == items;
    }
  }

  lemma ResolveAllStep(items: seq<Item>, i: nat, parse: Parser, dated: seq<DatedItem>)
    requires i < |items|
    requires ResolveAll(items[..i], parse) == Ok(dated)
    ensures ResolveAll(items[..i + 1], parse) ==
              match GetItemDate(items[i], parse)
              case Err(e) => Err(e)
              case Ok(date) => Ok(dated + [DatedItem(items[i], date)])
  {
    assert items[..i + 1][..i] == items[..i];
  }

  /** The items dated strictly after the watermark, in feed order. */
  function Selected(dated: seq<DatedItem>, watermark: int): (s: seq<DatedItem>)
    ensures |s| <= |dated|
  {
    if dated == [] then []
    else
      var last := dated[|dated| - 1];
      Selected(dated[..|dated| - 1], watermark) + (if last.date > watermark then [last] else [])
  }

  /** The line appended for one new post (main.go:46). */
  function PostLine(d: DatedItem, format: Formatter): string
  {
    d.item.title + " (" + d.item.link + ")" + " - published " + format(d.date)
  }

  /** One line per item, in the items' order. */
  function Lines(dated: seq<DatedItem>, format: Formatter): (lines: seq<string>)
    ensures |lines| == |dated|
    ensures forall k :: 0 <= k < |dated| ==> lines[k] == PostLine(dated[k], format)
  {
    if dated == [] then []
    else Lines(dated[..|dated| - 1], format) + [PostLine(dated[|dated| - 1], format)]
  }

  /** The later of two instants; on a tie the first (item_date.After(new_last_updated)). */
  function Later(current: Int64, candidate: Int64): Int64
  {
    if candidate > current then candidate else current
  }

  /** The running maximum of the dates, seeded from `seed`. */
  function MaxDate(seed: Int64, dated: seq<DatedItem>): Int64
  {
    if dated == [] then seed
    else Later(MaxDate(seed, dated[..|dated| - 1]), dated[|dated| - 1].date)
  }

  /** The watermark after a diff: the running maximum over the selected items. */
  function NewWatermark(dated: seq<DatedItem>, watermark: Int64): Int64
  {
    MaxDate(watermark, Selected(dated, watermark))
  }

  /** Extending the items by one extends the selection, the lines and the running maximum by that item alone. */
  lemma DiffStep(dated: seq<DatedItem>, d: DatedItem, watermark: Int64, format: Formatter)
    ensures Selected(dated + [d], watermark) == Selected(dated, watermark) + (if d.date > watermark then [d] else [])
    ensures Lines(Selected(dated + [d], watermark), format) ==
              Lines(Selected(dated, watermark), format) + (if d.date > watermark then [PostLine(d, format)] else [])
    ensures NewWatermark(dated + [d], watermark) ==
              if d.date > watermark then Later(NewWatermark(dated, watermark), d.date) else NewWatermark(dated, watermark)
  {
    assert (dated + [d])[..|dated|] == dated;
    var s := Selected(dated, watermark);
    if d.date > watermark {
      assert (s + [d])[..|s|] == s;
    } else {
      assert s + [] == s;
    }
  }

  /** What the diff loop computes, or the date fault that stops it. */
  function DiffSpec(items: seq<Item>, parse: Parser, format: Formatter, watermark: Int64): Result<Diff, DateFault>
  {
    match ResolveAll(items, parse)
    case Err(e) => Err(e)
    case Ok(dated) => Ok(Diff(Lines(Selected(dated, watermark), format), NewWatermark(dated, watermark)))
  }

  /** The diff loop of main, with the panics of getItemDate as an Err result. */
  method DiffItems(items: seq<Item>, parse: Parser, format: Formatter, watermark: Int64)
    returns (r: Result<Diff, DateFault>)
    ensures r == DiffSpec(items, parse, format, watermark)
  {
    var newPosts: seq<string> := [];
    var newWatermark := watermark;
    ghost var dated: seq<DatedItem> := [];
    for i := 0 to |items|
      invariant ResolveAll(items[..i], parse) == Ok(dated)
      invariant newPosts == Lines(Selected(dated, watermark), format)
      invariant newWatermark == NewWatermark(dated, watermark)
    {
      var itemDate := GetItemDate(items[i], parse);
      ResolveAllStep(items, i, parse, dated);
      if itemDate.Err? {
        ResolveAllPrefixFault(items, i + 1, parse);
        return Err(itemDate.error);
      }
      DiffStep(dated, DatedItem(items[i], itemDate.value), watermark, format);
      dated := dated + [DatedItem(items[i], itemDate.value)];
      if watermark >= itemDate.value {
        continue;
      }
      newPosts := newPosts + [PostLine(DatedItem(items[i], itemDate.value), format)];
      if itemDate.value > newWatermark {
        newWatermark := itemDate.value;
      }
    }
    assert items[..|items|] == items;
    return Ok(Diff(newPosts, newWatermark));
  }

  /** An item is selected exactly when it is dated strictly after the watermark; one dated at the watermark is skipped. */
  lemma {:induction false} SelectedMembers(dated: seq<DatedItem>, watermark: int)
    ensures forall x :: x in Selected(dated, watermark) <==> x in dated && x.date > watermark
  {
    if dated != [] {
      var prefix := dated[..|dated| - 1];
      SelectedMembers(prefix, watermark);
      assert dated == prefix + [dated[|dated| - 1]];
    }
  }

  /** Selection keeps feed order: the selection of a concatenation is the concatenation of the selections. */
  lemma {:induction false} SelectedAppend(front: seq<DatedItem>, back: seq<DatedItem>, watermark: int)
    ensures Selected(front + back, watermark) == Selected(front, watermark) + Selected(back, watermark)
  {
    if back == [] {
      assert front + back == front;
    } else {
      var prefix := back[..|back| - 1];
      var last := back[|back| - 1];
      SelectedAppend(front, prefix, watermark);
      assert (front + back)[..|front + back| - 1] == front + prefix;
    }
  }

  /** The running maximum is at least its seed and every date, and is the seed or one of the dates. */
  lemma {:induction false} MaxDateIsMaximum(seed: Int64, dated: seq<DatedItem>)
    ensures seed <= MaxDate(seed, dated)
    ensures forall k :: 0 <= k < |dated| ==> dated[k].date <= MaxDate(seed, dated)
    ensures MaxDate(seed, dated) == seed || exists k :: 0 <= k < |dated| && dated[k].date == MaxDate(seed, dated)
  {
    if dated != [] {
      var prefix := dated[..|dated| - 1];
      MaxDateIsMaximum(seed, prefix);
      var m := MaxDate(seed, prefix);
      if m != seed && MaxDate(seed, dated) == m {
        var k :| 0 <= k < |prefix| && prefix[k].date == m;
        assert dated[k].date == m;
      }
    }
  }

  /**
   * The new watermark is the maximum of the old one and the dates of the
   * selected items: never below the old one, at or above every item of the
   * feed, and equal to the old one exactly when nothing was selected.
   */
  lemma NewWatermarkIsMaximum(dated: seq<DatedItem>, watermark: Int64)
    ensures watermark <= NewWatermark(dated, watermark)
    ensures forall k :: 0 <= k < |dated| ==> dated[k].date <= NewWatermark(dated, watermark)
    ensures NewWatermark(dated, watermark) == watermark <==> Selected(dated, watermark) == []
    ensures NewWatermark(dated, watermark) != watermark ==>
              exists x :: x in Selected(dated, watermark) && x.date == NewWatermark(dated, watermark)
  {
    var s := Selected(dated, watermark);
    MaxDateIsMaximum(watermark, s);
    SelectedMembers(dated, watermark);
    var m := NewWatermark(dated, watermark);
    forall k | 0 <= k < |dated|
      ensures dated[k].date <= m
    {
      if dated[k].date > watermark {
        assert dated[k] in s;
        var j :| 0 <= j < |s| && s[j] == dated[k];
      }
    }
    if s != [] {
      assert s[0] in s;
    }
    if m != watermark {
      var k :| 0 <= k < |s| && s[k].date == m;
      assert s[k] in s;
    }
  }

  /** Re-running the diff with the watermark it returned selects nothing and keeps that watermark. */
  lemma RerunSelectsNothing(dated: seq<DatedItem>, watermark: Int64)
    ensures Selected(dated, NewWatermark(dated, watermark)) == []
    ensures NewWatermark(dated, NewWatermark(dated, watermark)) == NewWatermark(dated, watermark)
  {
    var m := NewWatermark(dated, watermark);
    NewWatermarkIsMaximum(dated, watermark);
    SelectedMembers(dated, m);
    if Selected(dated, m) != [] {
      assert Selected(dated, m)[0] in Selected(dated, m);
    }
    NewWatermarkIsMaximum(dated, m);
  }

  /** Idempotence of the diff: a second diff of the same feed with the returned watermark finds no new posts. */
  lemma DiffIdempotent(items: seq<Item>, parse: Parser, format: Formatter, watermark: Int64)
    requires DiffSpec(items, parse, format, watermark).Ok?
    ensures var w := DiffSpec(items, parse, format, watermark).value.watermark;
            DiffSpec(items, parse, format, w) == Ok(Diff([], w))
  {
    RerunSelectsNothing(ResolveAll(items, parse).value, watermark);
  }
}
