/** The console sink: one `title, link` line per feed item, with the commas in
    the title removed and the link cut at its first comma. Writing to the
    standard streams is abstracted away; the lines are returned in print order. */
module OutWriter {
  import opened Wrappers
  import Text
  import opened Feed

  /** The title with every `,` deleted (Rust's `replace(',', "")`). */
  function RemoveCommas(text: string): (r: string)
    ensures ',' !in r
    ensures r == Text.Without(text, ',')
  {
    Text.ReplaceEmptyIsWithout(text, ',');
    Text.WithoutRemovesAll(text, ',');
    Text.Replace(text, ',', "")
  }

  /** The first piece of the link split on `,`, or `"-"` should splitting yield
      no piece at all. */
  function CutComma(text: string): (r: string)
    ensures r <= text
    ensures ',' !in r
    ensures ',' in text ==> text[|r|] == ','
    ensures ',' !in text ==> r == text
  {
    Text.Nth(Text.Split(text, ','), 0).GetOr("-")
  }

  /** The line printed for one item. Its only comma is the one between the
      fields, so splitting it on commas gives back exactly the cleaned title
      and, after a space, the cut link. */
  function Line(item: Item): (r: string)
    ensures Text.Split(r, ',') == [RemoveCommas(item.title), " " + CutComma(item.link)]
  {
    var title := RemoveCommas(item.title);
    var rest := " " + CutComma(item.link);
    assert ',' !in rest && title + ", " + CutComma(item.link) == title + [','] + rest by {
      assert rest == [' '] + CutComma(item.link);
    }
    assert Text.Split(rest, ',') == [rest] by {
      Text.SplitWithoutSeparator(rest, ',');
    }
    Text.SplitAfterFirstSeparator(title, rest, ',');
    title + ", " + CutComma(item.link)
  }

  /** The lines `write_out` prints to standard output for the channel's items,
      one per item, in channel order. */
  function WriteOut(items: seq<Item>): (lines: seq<string>)
    ensures |lines| == |items|
    ensures forall i :: 0 <= i < |items| ==>
      lines[i] == RemoveCommas(items[i].title) + ", " + CutComma(items[i].link)
    decreases |items|
  {
    if |items| == 0 then []
    else [Line(items[0])] + WriteOut(items[1..])
  }

  // ---------------------------------------------------------------------------
  // Properties

  /** Printing two item lists one after the other prints the lines of the
      first, then those of the second. */
  lemma {:induction false} WriteOutAppend(a: seq<Item>, b: seq<Item>)
    ensures WriteOut(a + b) == WriteOut(a) + WriteOut(b)
    decreases |a|
  {
    if |a| == 0 {
      assert a + b == b;
    } else {
      assert (a + b)[0] == a[0] && (a + b)[1..] == a[1..] + b;
      WriteOutAppend(a[1..], b);
    }
  }

  /** Removing commas from a comma-free title changes nothing. */
  lemma RemoveCommasIdentity(text: string)
    requires ',' !in text
    ensures RemoveCommas(text) == text
  {
    Text.WithoutIdentity(text, ',');
  }

  /** Removing commas twice is the same as removing them once. */
  lemma RemoveCommasIdempotent(text: string)
    ensures RemoveCommas(RemoveCommas(text)) == RemoveCommas(text)
  {
    RemoveCommasIdentity(RemoveCommas(text));
  }

  /** Every character other than `,` survives, as often as it occurred. */
  lemma RemoveCommasKeepsOthers(text: string, x: char)
    requires x != ','
    ensures multiset(RemoveCommas(text))[x] == multiset(text)[x]
  {
    Text.WithoutKeepsOthers(text, ',', x);
  }

  /** Removal works piecewise, so the kept characters keep their order. */
  lemma RemoveCommasAppend(a: string, b: string)
    ensures RemoveCommas(a + b) == RemoveCommas(a) + RemoveCommas(b)
  {
    Text.WithoutAppend(a, b, ',');
  }

  /** The `"-"` fallback is dead code: splitting any link on `,` yields a first
      piece, and that piece is what `cut_comma` returns. */
  lemma CutCommaFallbackUnreachable(text: string)
    ensures Text.Nth(Text.Split(text, ','), 0).Some?
    ensures CutComma(text) == Text.Split(text, ',')[0]
  {
  }

  /** With a comma present the result is exactly the text before the first one;
      without a comma it is the whole link, so `""` maps to `""`. */
  lemma CutCommaFirstComma(text: string)
    ensures match Text.FirstIndexOf(text, ',')
            case Some(i) => CutComma(text) == text[..i]
            case None => CutComma(text) == text
  {
    match Text.FirstIndexOf(text, ',')
    case Some(i) =>
      assert |CutComma(text)| == i;
    case None =>
  }

  /** A title with one comma between two comma-free parts loses exactly that
      comma, and a comma-free link is printed whole; `Hello, World` with link
      `http://a.com` prints as `Hello World, http://a.com`. */
  lemma {:induction false} OneCommaTitleLine(before: string, after: string, link: string)
    requires ',' !in before && ',' !in after && ',' !in link
    ensures Line(Item(before + "," + after, link)) == before + after + ", " + link
  {
    var title := before + "," + after;
    assert RemoveCommas(title) == before + after by {
      assert title == before + ("," + after);
      Text.WithoutAppend(before, "," + after, ',');
      Text.WithoutAppend(",", after, ',');
      Text.WithoutIdentity(before, ',');
      Text.WithoutIdentity(after, ',');
    }
    assert CutComma(link) == link;
  }

  /** An item with empty title and link prints as `, ` and never as the
      placeholder. */
  lemma EmptyItemExample()
    ensures Line(Item("", "")) == ", "
  {
  }
}
