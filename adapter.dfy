/**
 * `NewsAdapter.getView`: binding one story to a list row. A row is a mutable
 * object with five texts; `GetView` reuses the row it is handed or inflates a
 * new one, copies the story's title, section and author into it, and
 * overwrites the date and time only when the publication timestamp parses.
 */
module Adapter {
  import opened Wrappers
  import opened NewsRecord
  import opened Timestamp

  /** The five texts a row shows. */
  datatype RowText = RowText(title: string, category: string, author: string, date: string, time: string)

  /**
   * The texts a row shows after `getView` binds `story` to it when it showed
   * `prior` before: the story's own texts, and the displayed publication date
   * and time when the timestamp parses, the row's previous ones when it does not.
   */
  function BoundRow(story: News, prior: RowText, hostOffset: int): RowText
  {
    match Normalize(story.webPublicationDate, hostOffset)
    case Some(shown) => RowText(story.title, story.section, story.author, shown.date, shown.time)
    case None => RowText(story.title, story.section, story.author, prior.date, prior.time)
  }

  /** A list item: its title, category, author, date and time views. */
  class Row {
    var title: string
    var category: string
    var author: string
    var date: string
    var time: string

    function Text(): RowText
      reads this
    {
      RowText(title, category, author, date, time)
    }

    /** Inflating the list item layout, whose views start out with `initial`. */
    constructor Inflate(initial: RowText)
      ensures Text() == initial
    {
      title, category, author := initial.title, initial.category, initial.author;
      date, time := initial.date, initial.time;
    }
  }

  class NewsAdapter {
    /** The adapter's data source. */
    const stories: seq<News>
    /** What the views of a freshly inflated row show. */
    const inflated: RowText
    /** The host's zone, in minutes east of UTC, in which dates and times are shown. */
    const hostOffset: int

    constructor (stories: seq<News>, inflated: RowText, hostOffset: int)
      ensures this.stories == stories && this.inflated == inflated && this.hostOffset == hostOffset
    {
      this.stories, this.inflated, this.hostOffset := stories, inflated, hostOffset;
    }

    /**
     * The row for the story at `position`: `convertView` itself, rebound,
     * when one is supplied, and a freshly inflated row otherwise. Nothing
     * but that row changes.
     */
    method GetView(position: nat, convertView: Row?) returns (view: Row)
      requires position < |stories|
      modifies convertView
      ensures convertView != null ==> view == convertView
      ensures convertView != null ==> view.Text() == BoundRow(stories[position], old(convertView.Text()), hostOffset)
      ensures convertView == null ==> fresh(view) && view.Text() == BoundRow(stories[position], inflated, hostOffset)
    {
      if convertView == null {
        view := new Row.Inflate(inflated);
      } else {
        view := convertView;
      }
      var currentNews := stories[position];
      view.title := currentNews.title;
      view.category := currentNews.section;
      view.author := currentNews.author;
      var webPublicationDate := currentNews.webPublicationDate;
      match Parse(ReplaceTrailingZ(webPublicationDate)) {
        case Some(fields) =>
          var instant := EpochSeconds(fields);
          view.date := FormatDate(instant, hostOffset);
          view.time := FormatTime(instant, hostOffset);
        case None =>
      }
    }
  }

  // ---------------------------------------------------------------------------
  // Properties of binding a story to a row

  /** The title, category and author always come from the story, whatever its timestamp. */
  lemma StoryTextsAlwaysShown(story: News, prior: RowText, hostOffset: int)
    ensures var r := BoundRow(story, prior, hostOffset);
      r.title == story.title && r.category == story.section && r.author == story.author
  {
  }

  /** A timestamp that does not parse leaves the row's date and time exactly as they were. */
  lemma DateAndTimeKeptOnFailure(story: News, prior: RowText, hostOffset: int)
    requires Instant(story.webPublicationDate).None?
    ensures BoundRow(story, prior, hostOffset).date == prior.date
    ensures BoundRow(story, prior, hostOffset).time == prior.time
  {
  }

  /** A timestamp that parses shows its instant's date and time, whatever the row showed before. */
  lemma DateAndTimeOfInstant(story: News, prior: RowText, hostOffset: int)
    requires Instant(story.webPublicationDate).Some?
    ensures var t := Instant(story.webPublicationDate).value;
      && BoundRow(story, prior, hostOffset).date == FormatDate(t, hostOffset)
      && BoundRow(story, prior, hostOffset).time == FormatTime(t, hostOffset)
  {
  }

  /** Binding the same story twice shows what binding it once shows. */
  lemma BindingIdempotent(story: News, prior: RowText, hostOffset: int)
    ensures BoundRow(story, BoundRow(story, prior, hostOffset), hostOffset) == BoundRow(story, prior, hostOffset)
  {
  }

  /**
   * A recycled row: after showing story `a` it is bound to story `b`. When
   * `b`'s timestamp parses nothing of `a` remains; when it does not, the row
   * shows `b`'s title next to the date and time it showed for `a`.
   */
  lemma RecycledRow(a: News, b: News, prior: RowText, hostOffset: int)
    ensures var before := BoundRow(a, prior, hostOffset);
      Instant(b.webPublicationDate).Some? ==> BoundRow(b, before, hostOffset) == BoundRow(b, prior, hostOffset)
    ensures var before := BoundRow(a, prior, hostOffset);
      Instant(b.webPublicationDate).None? ==>
        && BoundRow(b, before, hostOffset).title == b.title
        && BoundRow(b, before, hostOffset).date == before.date
        && BoundRow(b, before, hostOffset).time == before.time
  {
  }

  /** Stories that differ only in writing UTC as `Z` or as `+0000` give the same row. */
  lemma ZoneSpellingsGiveSameRow(p: string, a: News, b: News, prior: RowText, hostOffset: int)
    requires a.webPublicationDate == p + "Z" && b == a.(webPublicationDate := p + "+0000")
    ensures BoundRow(a, prior, hostOffset) == BoundRow(b, prior, hostOffset)
  {
    ZoneSpellingsAgree(p, hostOffset);
  }

  // ---------------------------------------------------------------------------
  // Examples

  /** A story published at 14:30 UTC, shown on a freshly inflated blank row in a UTC host. */
  lemma UtcStoryRow(story: News, hostOffset: int)
    requires story == News("Election Results", "J. Smith", "Politics", "2019-11-05T14:30:00Z", "https://example.com/e")
    requires hostOffset == 0
    ensures BoundRow(story, RowText("", "", "", "", ""), hostOffset)
      == RowText("Election Results", "Politics", "J. Smith", "Nov 05, 2019", "02:30 PM")
  {
    UtcExample(story.webPublicationDate, hostOffset);
  }

  /** A story whose timestamp is not a timestamp leaves a blank row's date and time blank. */
  lemma MalformedStoryRow(story: News, hostOffset: int)
    requires story == News("Weather", "", "Science", "garbage", "")
    ensures BoundRow(story, RowText("", "", "", "", ""), hostOffset) == RowText("Weather", "Science", "", "", "")
  {
    RejectedExamples(hostOffset);
  }

  /**
   * The residue a recycled row keeps: bound to a story with a malformed
   * timestamp after a story published at 14:30 UTC, the row shows the new
   * title with the old date and time, where a fresh row shows blanks.
   */
  lemma RecycledRowResidueExample(a: News, b: News, hostOffset: int)
    requires a == News("Election Results", "J. Smith", "Politics", "2019-11-05T14:30:00Z", "https://example.com/e")
    requires b == News("Weather", "", "Science", "garbage", "")
    requires hostOffset == 0
    ensures var blank := RowText("", "", "", "", "");
      && BoundRow(b, BoundRow(a, blank, hostOffset), hostOffset) == RowText("Weather", "Science", "", "Nov 05, 2019", "02:30 PM")
      && BoundRow(b, blank, hostOffset) == RowText("Weather", "Science", "", "", "")
  {
    UtcStoryRow(a, hostOffset);
    MalformedStoryRow(b, hostOffset);
  }
}
