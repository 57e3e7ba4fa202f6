/** The `drop_*` doctests, generalised: each sample page is a tag holding the needle, with
    any text before the needle inside the tag (`mid1`), after it (`mid2`), and around the tag
    (`pre`, `post`). The doctests are the instances with the fragments they show — `pre` is
    ` />`, `mid1` is `link rel="pingback" `, and so on — and the site address
    `https://something.org/`; those fragments meet every requirement stated here. */
module SanitizerExamples {
  import opened PyStr
  import opened Sanitizer

  /** `drop_admin_link` removes the inline script that posts to admin-ajax. */
  lemma AdminLinkExample(pre: string, mid1: string, mid2: string, post: string)
    requires '<' !in mid1 && '>' !in mid2 && '-' !in pre && '-' !in mid1
    ensures DropAdminLink(pre + "<" + mid1 + "/wp-admin/admin-ajax.php" + mid2 + ">" + post) == pre + post
  {
    var link := "/wp-admin/admin-ajax.php";
    assert link[3] == '-' && link[..3] == "/wp";
    DropTag(pre, mid1, link, mid2, post, 3);
  }

  /** `drop_xmlrpc` removes the pingback link, written with double quotes, of a site whose
      address has no `<`, `>`, `'` or `x`. */
  lemma XmlrpcExample(domain: string, pre: string, mid1: string, mid2: string, post: string)
    requires '<' !in domain && '>' !in domain && '\'' !in domain && 'x' !in domain
    requires '<' !in mid1 && '>' !in mid2
    requires '\'' !in pre && '\'' !in mid1 && '\'' !in mid2 && '\'' !in post
    requires 'x' !in pre && 'x' !in mid1 && 'x' !in post
    ensures DropXmlrpc(domain, pre + "<" + mid1 + ("href=\"" + domain + "xmlrpc.php" + "\"") + mid2 + ">" + post)
         == pre + post
  {
    var content := pre + "<" + mid1 + ("href=\"" + domain + "xmlrpc.php" + "\"") + mid2 + ">" + post;
    XmlrpcSingle(domain, content);
    XmlrpcDouble(domain, pre, mid1, mid2, post);
    XmlrpcRsd(domain, pre + post);
  }

  lemma XmlrpcRsd(domain: string, content: string)
    requires 'x' !in domain && '\'' !in content && 'x' !in content
    ensures DropLink(content, "href='" + domain + "xmlrpc.php?rsd" + "'") == content
    ensures DropLink(content, "href=\"" + domain + "xmlrpc.php?rsd" + "\"") == content
  {
    var n1, n2 := "href='" + domain + "xmlrpc.php?rsd" + "'", "href=\"" + domain + "xmlrpc.php?rsd" + "\"";
    assert n1[5] == '\'' && n2[6 + |domain|] == 'x';
    DropAbsentByChar(content, n1, 5);
    DropAbsentByChar(content, n2, 6 + |domain|);
  }

  lemma XmlrpcSingle(domain: string, content: string)
    requires '\'' !in content
    ensures DropLink(content, "href='" + domain + "xmlrpc.php" + "'") == content
  {
    var n := "href='" + domain + "xmlrpc.php" + "'";
    assert n[5] == '\'';
    DropAbsentByChar(content, n, 5);
  }

  lemma XmlrpcDouble(domain: string, pre: string, mid1: string, mid2: string, post: string)
    requires '<' !in domain && '>' !in domain && 'x' !in domain
    requires '<' !in mid1 && '>' !in mid2 && 'x' !in pre && 'x' !in mid1
    ensures DropLink(pre + "<" + mid1 + ("href=\"" + domain + "xmlrpc.php" + "\"") + mid2 + ">" + post,
                     "href=\"" + domain + "xmlrpc.php" + "\"") == pre + post
  {
    var needle := "href=\"" + domain + "xmlrpc.php" + "\"";
    var k := 6 + |domain|;
    assert needle[k] == 'x' && needle[..k] == "href=\"" + domain;
    DropTag(pre, mid1, needle, mid2, post, k);
  }

  /** `drop_wp_json` removes the REST API discovery link of a site whose address has no `<`,
      `>` or `j`. */
  lemma WpJsonExample(domain: string, pre: string, mid1: string, mid2: string, post: string)
    requires '<' !in domain && '>' !in domain && 'j' !in domain
    requires '<' !in mid1 && '>' !in mid2 && 'j' !in pre && 'j' !in mid1
    requires 'j' !in post && 'e' !in pre && 'e' !in post
    ensures DropWpJson(domain, pre + "<" + mid1 + (domain + "wp-json/") + mid2 + ">" + post) == pre + post
  {
    var needle := domain + "wp-json/";
    assert needle[|domain| + 3] == 'j' && needle[..|domain| + 3] == domain + "wp-";
    DropTag(pre, mid1, needle, mid2, post, |domain| + 3);
    WpJsonOembed(pre + post);
  }

  lemma WpJsonOembed(content: string)
    requires 'j' !in content && 'e' !in content
    ensures DropLink(DropLink(content, "wp-json/oembed/"), "text/xml+oembed") == content
  {
    var n1, n2 := "wp-json/oembed/", "text/xml+oembed";
    assert n1[3] == 'j' && n2[1] == 'e';
    DropAbsentByChar(content, n1, 3);
    DropAbsentByChar(content, n2, 1);
  }

  /** `drop_shortlink` removes a relative shortlink written with single quotes; the absolute
      forms are absent because the site address has a `:` and the page does not. */
  lemma ShortlinkExample(domain: string, pre: string, mid1: string, mid2: string, post: string)
    requires ':' in domain
    requires '<' !in mid1 && '>' !in mid2 && '?' !in pre && '?' !in mid1
    requires ':' !in pre && ':' !in mid1 && ':' !in mid2 && ':' !in post
    requires '"' !in pre && '"' !in mid1 && '"' !in mid2 && '"' !in post
    requires '\\' !in pre && '\\' !in post
    ensures DropShortlink(domain, pre + "<" + mid1 + "href='?p=" + mid2 + ">" + post) == pre + post
  {
    var content := pre + "<" + mid1 + "href='?p=" + mid2 + ">" + post;
    ShortlinkAbsolute(domain, content);
    var n := "href='?p=";
    assert n[6] == '?' && n[..6] == "href='";
    DropTag(pre, mid1, n, mid2, post, 6);
    ShortlinkEscaped(pre + post);
  }

  lemma ShortlinkEscaped(content: string)
    requires '\\' !in content && '"' !in content
    ensures DropLink(DropLink(DropLink(content, "href=\\'?p="), "href=\"?p="), "rel=\\'shortlink\\'") == content
  {
    var n1, n2, n3 := "href=\\'?p=", "href=\"?p=", "rel=\\'shortlink\\'";
    assert n1[5] == '\\' && n2[5] == '"' && n3[4] == '\\';
    DropAbsentByChar(content, n1, 5);
    DropAbsentByChar(content, n2, 5);
    DropAbsentByChar(content, n3, 4);
  }

  lemma ShortlinkAbsolute(domain: string, content: string)
    requires ':' in domain && ':' !in content && '"' !in content
    ensures DropLink(content, "href='" + domain + "?p=") == content
    ensures DropLink(content, "href=\"" + domain + "?p=") == content
  {
    var j :| 0 <= j < |domain| && domain[j] == ':';
    assert ("href='" + domain + "?p=")[6 + j] == ':';
    DropAbsentByChar(content, "href='" + domain + "?p=", 6 + j);
    DropAbsentByChar(content, "href=\"" + domain + "?p=", 5);
  }
}
