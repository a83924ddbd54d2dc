/**
 * One news story as the app receives it: five texts stored exactly as given.
 * The record has no setters, so it is a value; its getters are the field
 * projections `title`, `author`, `section`, `webPublicationDate` and `url`.
 */
module NewsRecord {
  datatype News = News(title: string, author: string, section: string, webPublicationDate: string, url: string)

  /**
   * Each getter returns exactly what the constructor was given: no trimming,
   * no validation, and the timestamp keeps whatever zone spelling it came with.
   */
  lemma StoredAsGiven(title: string, author: string, section: string, webPublicationDate: string, url: string)
    ensures var story := News(title, author, section, webPublicationDate, url);
      && story.title == title && story.author == author && story.section == section
      && story.webPublicationDate == webPublicationDate && story.url == url
  {
  }

  /** The record carries nothing but its five texts: two values agreeing on all five are the same. */
  lemma SameStoryIffSameTexts(a: News, b: News)
    ensures a == b <==> (a.title == b.title && a.author == b.author && a.section == b.section
                         && a.webPublicationDate == b.webPublicationDate && a.url == b.url)
  {
  }
}
