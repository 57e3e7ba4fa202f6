/** The tag-splicing sanitiser: `drop_link` cuts from the last `<` before the first
    occurrence of a needle through the first `>` after it, and the `drop_*` helpers chain it
    over the WordPress-specific needles (admin-ajax script, xmlrpc pingback and RSD links,
    wp-json and oEmbed links, shortlinks). Python's slicing with a -1 bound is kept: with no
    `<` before the needle the head is `content[:-1]`, and with no `>` after it the tail is the
    whole content, so the result can be longer than the input. */
module Sanitizer {
  import opened PyStr

  /** `drop_link(content, link)` */
  function DropLink(content: string, link: string): string
  {
    var p := Find(content, link);
    if p == -1 then content else CutAround(content, p)
  }

  /** `content[:content[:p].rfind("<")] + content[content.find(">", p) + 1:]` */
  function CutAround(content: string, p: nat): string
    requires p <= |content|
  {
    Prefix(content, RFind(content[..p], "<")) + Suffix(content, FindFrom(content, ">", p) + 1)
  }

  /** `drop_admin_link(content)` */
  function DropAdminLink(content: string): string
  {
    DropLink(content, "/wp-admin/admin-ajax.php")
  }

  /** `drop_xmlrpc(domain, content)`: the pingback link and the RSD link, in both quotings. */
  function DropXmlrpc(domain: string, content: string): string
  {
    var c1 := DropLink(content, "href='" + domain + "xmlrpc.php" + "'");
    var c2 := DropLink(c1, "href=\"" + domain + "xmlrpc.php" + "\"");
    var c3 := DropLink(c2, "href='" + domain + "xmlrpc.php?rsd" + "'");
    DropLink(c3, "href=\"" + domain + "xmlrpc.php?rsd" + "\"")
  }

  /** `drop_wp_json(domain, content)` */
  function DropWpJson(domain: string, content: string): string
  {
    var c1 := DropLink(content, domain + "wp-json/");
    var c2 := DropLink(c1, "wp-json/oembed/");
    DropLink(c2, "text/xml+oembed")
  }

  /** `drop_shortlink(domain, content)`: absolute and relative `?p=` links, and the
      backslash-escaped forms found inside inline scripts. */
  function DropShortlink(domain: string, content: string): string
  {
    var c1 := DropLink(content, "href='" + domain + "?p=");
    var c2 := DropLink(c1, "href=\"" + domain + "?p=");
    var c3 := DropLink(c2, "href='?p=");
    var c4 := DropLink(c3, "href=\\'?p=");
    var c5 := DropLink(c4, "href=\"?p=");
    DropLink(c5, "rel=\\'shortlink\\'")
  }

  // ---------------------------------------------------------------------------------------
  // Properties

  /** A needle that does not occur leaves the content unchanged. */
  lemma DropAbsent(content: string, link: string)
    requires !Contains(content, link)
    ensures DropLink(content, link) == content
  {
    FindSpec(content, link);
  }

  /** When a `<` precedes the needle's first occurrence and a `>` follows it, exactly the
      span from that last `<` through that first `>` is removed, and the result is strictly
      shorter. */
  lemma DropSpliced(content: string, link: string) returns (lt: nat, gt: nat)
    requires Find(content, link) != -1
    requires '<' in content[..Find(content, link)]
    requires '>' in content[Find(content, link)..]
    ensures lt < Find(content, link) <= gt < |content|
    ensures content[lt] == '<' && '<' !in content[lt + 1..Find(content, link)]
    ensures content[gt] == '>' && '>' !in content[Find(content, link)..gt]
    ensures DropLink(content, link) == content[..lt] + content[gt + 1..]
    ensures |DropLink(content, link)| < |content|
  {
    var p := Find(content, link);
    var head := content[..p];
    var tail := content[p..];
    lt := LastChar(head, '<');
    var g := FirstChar(tail, '>');
    gt := p + g;
    assert FindFrom(content, ">", p) == gt;
    DropLinkCut(content, link, p, lt, gt);
    assert content[lt + 1..p] == head[lt + 1..];
    assert content[p..gt] == tail[..g];
  }

  /** `drop_link` when the needle, a `<` before it and a `>` after it are all found. */
  lemma DropLinkCut(content: string, link: string, p: nat, lt: nat, gt: nat)
    requires Find(content, link) == p && p <= |content|
    requires RFind(content[..p], "<") == lt && FindFrom(content, ">", p) == gt
    requires lt <= gt < |content|
    ensures DropLink(content, link) == content[..lt] + content[gt + 1..]
  {
    assert DropLink(content, link) == CutAround(content, p);
    assert Prefix(content, lt) == content[..lt];
    assert Suffix(content, gt + 1) == content[gt + 1..];
  }

  /** Where the last `c` of a text that has one sits. */
  lemma LastChar(s: string, c: char) returns (i: nat)
    requires c in s
    ensures i == RFind(s, [c]) && i < |s| && s[i] == c && c !in s[i + 1..]
  {
    RFindChar(s, c);
    i := RFind(s, [c]);
    var t := s[i + 1..];
    assert forall k :: 0 <= k < |t| ==> t[k] == s[i + 1 + k];
  }

  /** Where the first `c` of a text that has one sits. */
  lemma FirstChar(s: string, c: char) returns (i: nat)
    requires c in s
    ensures i == Find(s, [c]) && i < |s| && s[i] == c && c !in s[..i]
  {
    FindChar(s, c);
    i := Find(s, [c]);
  }

  /** With neither a `<` before the needle nor a `>` after it, the content grows: the head
      is `content[:-1]` and the tail is the whole content. */
  lemma DropGrows(content: string, link: string)
    requires Find(content, link) != -1
    requires '<' !in content[..Find(content, link)]
    requires '>' !in content[Find(content, link)..]
    ensures |content| > 0 ==> DropLink(content, link) == content[..|content| - 1] + content
    ensures |content| > 1 ==> |DropLink(content, link)| > |content|
  {
    var p := Find(content, link);
    RFindChar(content[..p], '<');
    FindChar(content[p..], '>');
    assert FindFrom(content, ">", p) == -1;
  }

  /** The smallest cases of growth: dropping `y` from `xy` gives `xxy`. */
  lemma DropGrowsPair(x: char, y: char)
    requires x != y && x != '<' && y != '>'
    ensures DropLink([x, y], [y]) == [x, x, y]
  {
    FindAfter([x], [y], [], 0);
    assert [x] + [y] + [] == [x, y];
    assert [x, y][..1] == [x] && [x, y][1..] == [y];
    DropGrows([x, y], [y]);
  }

  /** The shape every sanitiser example has: the needle sits inside one tag. `k` names a
      character of the needle that cannot occur earlier, so the needle's first occurrence is
      the one inside the tag. */
  lemma DropTag(pre: string, mid1: string, link: string, mid2: string, post: string, k: nat)
    requires k < |link| && link[k] !in pre + "<" + mid1 + link[..k]
    requires '<' !in mid1 && '>' !in link && '>' !in mid2
    ensures DropLink(pre + "<" + mid1 + link + mid2 + ">" + post, link) == pre + post
  {
    var a := pre + "<" + mid1;
    var b := mid2 + ">" + post;
    TagOpen(pre, mid1);
    var g := TagClose(link, mid2, post);
    DropInside(a, link, b, k, |pre|, g);
    TagShape(pre, mid1, link, mid2, post);
  }

  /** Cutting around a needle found at the end of `a`: the cut runs from the last `<` of `a`
      to the first `>` of what follows `a`. */
  lemma DropInside(a: string, link: string, b: string, k: nat, lt: nat, g: nat)
    requires k < |link| && link[k] !in a + link[..k]
    requires RFind(a, "<") == lt && Find(link + b, ">") == g
    ensures DropLink(a + link + b, link) == a[..lt] + (link + b)[g + 1..]
  {
    var content := a + link + b;
    FindAfter(a, link, b, k);
    HeadTail(a, link, b);
    assert FindFrom(content, ">", |a|) == |a| + g;
    DropLinkCut(content, link, |a|, lt, |a| + g);
    TailDrop(a, link + b, g + 1);
  }

  lemma HeadTail(a: string, link: string, b: string)
    ensures (a + link + b)[..|a|] == a && (a + link + b)[|a|..] == link + b
  {
  }

  lemma TailDrop(a: string, t: string, n: nat)
    requires n <= |t|
    ensures (a + t)[|a| + n..] == t[n..]
  {
  }

  lemma TagShape(pre: string, mid1: string, link: string, mid2: string, post: string)
    ensures (pre + "<" + mid1)[..|pre|] == pre
    ensures (link + (mid2 + ">" + post))[|link + mid2| + 1..] == post
    ensures pre + "<" + mid1 + link + mid2 + ">" + post == (pre + "<" + mid1) + link + (mid2 + ">" + post)
  {
  }

  lemma TagOpen(pre: string, mid1: string)
    requires '<' !in mid1
    ensures RFind(pre + "<" + mid1, "<") == |pre|
  {
    assert pre + "<" + mid1 == pre + ['<'] + mid1;
    RFindLast(pre, '<', mid1);
  }

  lemma TagClose(link: string, mid2: string, post: string) returns (g: nat)
    requires '>' !in link && '>' !in mid2
    ensures g == |link + mid2| && Find(link + (mid2 + ">" + post), ">") == g
  {
    assert link + (mid2 + ">" + post) == (link + mid2) + ">" + post;
    FindAfter(link + mid2, ">", post, 0);
    g := |link + mid2|;
  }

  /** A needle with a character the content lacks is not found. */
  lemma DropAbsentByChar(content: string, link: string, k: nat)
    requires k < |link| && link[k] !in content
    ensures DropLink(content, link) == content
  {
    NotContainsByChar(content, link, k);
    DropAbsent(content, link);
  }
}
