/** The parsed JIRA export: an `rss` document holding one channel whose items
    keep document order. Duplicates are legal; nothing is unique. */
module Feed {

  datatype Item = Item(title: string, link: string)

  datatype Channel = Channel(items: seq<Item>)

  datatype Rss = Rss(channel: Channel)
}
