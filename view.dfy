/** The element renderer's logic (src/element.tsx): the tag of headings and lists, and the
    shortened URL shown in a link's popover. */
module ElementView {
  import opened Types

  /** The number of URL characters shown before the ellipsis. */
  const MaxShown := 30

  /** The URL as the popover shows it: unchanged up to 30 characters, otherwise its first
      30 characters followed by `...`. */
  function DisplayUrl(url: string): (shown: string)
    ensures |url| <= MaxShown ==> shown == url
    ensures |url| > MaxShown ==> |shown| == MaxShown + 3 && shown[..MaxShown] == url[..MaxShown]
                                 && shown[MaxShown..] == "..."
  {
    if |url| > MaxShown then url[..MaxShown] + "..." else url
  }

  /** The shown URL is never longer than 33 characters and always starts with as much of
      the URL as fits. */
  lemma DisplayUrlBounds(url: string)
    ensures |DisplayUrl(url)| <= MaxShown + 3
    ensures var k := if |url| <= MaxShown then |url| else MaxShown;
      DisplayUrl(url)[..k] == url[..k]
  {
  }

  /** Shortening a shown URL again changes nothing: the 30 characters it keeps are the
      same and the ellipsis is put back. */
  lemma DisplayUrlTwice(url: string)
    ensures DisplayUrl(DisplayUrl(url)) == DisplayUrl(url)
  {
    if |url| > MaxShown {
      var s := DisplayUrl(url);
      assert s[..MaxShown] == url[..MaxShown];
    }
  }

  /** The tag a heading renders with: `h` followed by its level. */
  function HeadingTag(l: HeadingLevel): (tag: string)
    ensures |tag| == 2 && tag[0] == 'h' && tag[1] as int - '0' as int == l
  {
    "h" + LevelString(l)
  }

  /** Distinct levels render with distinct tags. */
  lemma HeadingTagInjective(l: HeadingLevel, m: HeadingLevel)
    ensures HeadingTag(l) == HeadingTag(m) <==> l == m
  {
    if HeadingTag(l) == HeadingTag(m) {
      assert HeadingTag(l)[1] == HeadingTag(m)[1];
    }
  }

  /** The tag a list renders with: `ul` when unordered, `ol` otherwise. */
  function ListTag(t: ListType): (tag: string)
    ensures tag == "ul" <==> ListTypeName(t) == "unordered"
    ensures tag == "ol" <==> ListTypeName(t) != "unordered"
  {
    if ListTypeName(t) == "unordered" then "ul" else "ol"
  }
}
