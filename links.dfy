/**
 * Link records produced by the `store_associated_link` task: how an `href` is
 * made absolute, and the pass that removes duplicate and empty-text records.
 */
module Links {
  import opened Strings
  import opened Seqs

  /** The two parts of a URL that `urllib.parse.urlparse` is asked for. */
  datatype UrlParts = UrlParts(scheme: string, netloc: string)

  datatype LinkRecord = LinkRecord(href: string, text: string)

  const Www: string := "www."

  /** Two network locations name the same host once every `"www."` is deleted from both. */
  predicate SameHost(netloc1: string, netloc2: string) {
    RemoveAll(netloc1, Www) == RemoveAll(netloc2, Www)
  }

  /**
   * The `href` of a found link, given the network location its own URL has.
   * A relative link, or one to another host, gets the page's scheme and network
   * location put in front of it, by plain concatenation; any other is kept.
   */
  function NormalizeHref(href: string, hrefNetloc: string, page: UrlParts): string {
    if hrefNetloc == "" || !SameHost(hrefNetloc, page.netloc) then
      page.scheme + "://" + page.netloc + href
    else
      href
  }

  /**
   * An `href` is kept exactly when it names a host that is the page's own up to
   * `"www."`; otherwise the result is the page's scheme and host followed by the
   * whole `href`, which therefore survives as a suffix.
   */
  lemma NormalizeHrefKeepsIff(href: string, hrefNetloc: string, page: UrlParts)
    ensures NormalizeHref(href, hrefNetloc, page) == href <==>
      hrefNetloc != "" && SameHost(hrefNetloc, page.netloc)
    ensures NormalizeHref(href, hrefNetloc, page) != href ==>
      NormalizeHref(href, hrefNetloc, page) == page.scheme + "://" + page.netloc + href
  {
    var r := NormalizeHref(href, hrefNetloc, page);
    if hrefNetloc == "" || !SameHost(hrefNetloc, page.netloc) {
      assert |r| == |page.scheme| + 3 + |page.netloc| + |href|;
    }
  }

  /** A link to the page's own host written with `"www."` is kept as it is, and so is the converse. */
  lemma WwwPrefixIgnored(href: string, host: string, scheme: string)
    requires host != ""
    ensures NormalizeHref(href, Www + host, UrlParts(scheme, host)) == href
    ensures NormalizeHref(href, host, UrlParts(scheme, Www + host)) == href
  {
    RemoveAllLeading(host, Www);
  }

  /** A network location without the letter `w` has nothing to delete. */
  lemma NoWwwWithoutW(s: string)
    requires 'w' !in s
    ensures RemoveAll(s, Www) == s
  {
    if IsSubstring(Www, s) {
      SubstringChars(Www, s, 0);
    }
    RemoveAllAbsent(s, Www);
  }

  /**
   * `"www."` is deleted wherever it stands: after a part `a` without the letter
   * `w`, `a.www.b` and `a.b` are one host.
   */
  lemma InnerWwwIgnored(a: string, b: string)
    requires 'w' !in a
    ensures SameHost(a + Www + b, a + b)
  {
    RemoveAllInside(a, Www, b);
    RemoveAllAfterFreePrefix(a, b, Www);
  }

  /** A relative link `/page` on `http://example.com` becomes `http://example.com/page`. */
  lemma RelativeHrefScenario()
    ensures NormalizeHref("/page", "", UrlParts("http", "example.com")) == "http://example.com/page"
  {
  }

  /** A link to another host keeps its own scheme and host, after the page's. */
  lemma ForeignHrefPrefixed(href: string, hrefNetloc: string, page: UrlParts)
    requires hrefNetloc != "" && hrefNetloc != page.netloc
    requires 'w' !in hrefNetloc && 'w' !in page.netloc
    ensures NormalizeHref(href, hrefNetloc, page) == page.scheme + "://" + page.netloc + href
  {
    NoWwwWithoutW(hrefNetloc);
    NoWwwWithoutW(page.netloc);
  }

  // ---------------------------------------------------------------------------
  // Removing duplicates
  // ---------------------------------------------------------------------------

  /**
   * What the dedupe pass keeps of `items` when the hrefs in `seen` have already
   * been kept: a record is kept when its href is new and its text is non-empty,
   * and only a kept record marks its href as seen.
   */
  function DedupeFrom(items: seq<LinkRecord>, seen: set<string>): seq<LinkRecord> {
    if items == [] then []
    else if items[0].href !in seen && items[0].text != "" then
      [items[0]] + DedupeFrom(items[1..], seen + {items[0].href})
    else
      DedupeFrom(items[1..], seen)
  }

  function Deduped(items: seq<LinkRecord>): seq<LinkRecord> {
    DedupeFrom(items, {})
  }

  predicate DistinctHrefs(s: seq<LinkRecord>) {
    forall i, j :: 0 <= i < j < |s| ==> s[i].href != s[j].href
  }

  predicate NonEmptyTexts(s: seq<LinkRecord>) {
    forall i :: 0 <= i < |s| ==> s[i].text != ""
  }

  function Hrefs(s: seq<LinkRecord>): set<string> {
    set i | 0 <= i < |s| :: s[i].href
  }

  /** The hrefs of the records of `s` that have text. */
  function HrefsWithText(s: seq<LinkRecord>): set<string> {
    set i | 0 <= i < |s| && s[i].text != "" :: s[i].href
  }

  /**
   * The dedupe pass, a loop that builds the kept list and the set of hrefs it
   * holds.
   */
  method Dedupe(items: seq<LinkRecord>) returns (deduped: seq<LinkRecord>)
    ensures deduped == Deduped(items)
  {
    deduped := [];
    var seen: set<string> := {};
    for i := 0 to |items|
      invariant seen == Hrefs(deduped)
      invariant deduped + DedupeFrom(items[i..], seen) == Deduped(items)
    {
      assert items[i..][1..] == items[i + 1..];
      var item := items[i];
      if item.href !in seen && item.text != "" {
        assert Hrefs(deduped + [item]) == Hrefs(deduped) + {item.href} by {
          forall h | h in Hrefs(deduped + [item])
            ensures h in Hrefs(deduped) + {item.href}
          {
            var k :| 0 <= k < |deduped| + 1 && (deduped + [item])[k].href == h;
            if k < |deduped| {
              assert deduped[k].href == h;
            }
          }
          forall h | h in Hrefs(deduped) + {item.href}
            ensures h in Hrefs(deduped + [item])
          {
            if h == item.href {
              assert (deduped + [item])[|deduped|].href == h;
            } else {
              var k :| 0 <= k < |deduped| && deduped[k].href == h;
              assert (deduped + [item])[k].href == h;
            }
          }
        }
        deduped := deduped + [item];
        seen := seen + {item.href};
      }
    }
  }

  /** Dedupe keeps records in their original order and invents none. */
  lemma {:induction false} DedupeFromSubsequence(items: seq<LinkRecord>, seen: set<string>)
    ensures IsSubsequence(DedupeFrom(items, seen), items)
  {
    if items != [] {
      DedupeFromSubsequence(items[1..], seen + {items[0].href});
      DedupeFromSubsequence(items[1..], seen);
    }
  }

  /**
   * Dedupe's output has no two records with one href, no href already seen, no
   * empty text, and holds every href that some record with text has (unless seen).
   */
  lemma {:induction false} DedupeFromShape(items: seq<LinkRecord>, seen: set<string>)
    ensures var r := DedupeFrom(items, seen);
      && DistinctHrefs(r) && NonEmptyTexts(r)
      && Hrefs(r) == HrefsWithText(items) - seen
  {
    if items != [] {
      var x, rest := items[0], items[1..];
      assert HrefsWithText(items) == (if x.text != "" then {x.href} else {}) + HrefsWithText(rest) by {
        forall h | h in HrefsWithText(items)
          ensures h in (if x.text != "" then {x.href} else {}) + HrefsWithText(rest)
        {
          var k :| 0 <= k < |items| && items[k].text != "" && items[k].href == h;
          if k > 0 {
            assert rest[k - 1] == items[k];
          }
        }
        forall h | h in HrefsWithText(rest)
          ensures h in HrefsWithText(items)
        {
          var k :| 0 <= k < |rest| && rest[k].text != "" && rest[k].href == h;
          assert items[k + 1] == rest[k];
        }
      }
      if x.href !in seen && x.text != "" {
        DedupeFromShape(rest, seen + {x.href});
        var tail := DedupeFrom(rest, seen + {x.href});
        var r := [x] + tail;
        assert x.href !in Hrefs(tail);
        forall i, j | 0 <= i < j < |r|
          ensures r[i].href != r[j].href
        {
          if i == 0 {
            assert r[j] == tail[j - 1];
            assert tail[j - 1].href in Hrefs(tail);
          } else {
            assert r[i] == tail[i - 1] && r[j] == tail[j - 1];
          }
        }
        assert Hrefs(r) == {x.href} + Hrefs(tail) by {
          forall h | h in Hrefs(r)
            ensures h in {x.href} + Hrefs(tail)
          {
            var k :| 0 <= k < |r| && r[k].href == h;
            if k > 0 {
              assert r[k] == tail[k - 1];
            }
          }
          forall h | h in Hrefs(tail)
            ensures h in Hrefs(r)
          {
            var k :| 0 <= k < |tail| && tail[k].href == h;
            assert r[k + 1] == tail[k];
          }
          assert r[0].href == x.href;
        }
      } else {
        DedupeFromShape(rest, seen);
      }
    }
  }

  /**
   * `items[i]` has text and no earlier record with text has its href: the
   * record dedupe keeps for that href.
   */
  predicate FirstWithText(items: seq<LinkRecord>, i: nat)
    requires i < |items|
  {
    && items[i].text != ""
    && forall j :: 0 <= j < i ==> items[j].href != items[i].href || items[j].text == ""
  }

  /** `x` is a record of `items` that is first with text for an href not in `seen`. */
  predicate FirstNewRecord(items: seq<LinkRecord>, seen: set<string>, x: LinkRecord) {
    exists i :: 0 <= i < |items| && items[i] == x && x.href !in seen && FirstWithText(items, i)
  }

  /**
   * The record dedupe keeps for an href is the first one with text: every kept
   * record is such a first record, and every such first record not already seen
   * is kept.
   */
  lemma {:induction false} DedupeFromKeepsFirst(items: seq<LinkRecord>, seen: set<string>)
    ensures forall k :: 0 <= k < |DedupeFrom(items, seen)| ==>
      FirstNewRecord(items, seen, DedupeFrom(items, seen)[k])
    ensures forall i :: 0 <= i < |items| && items[i].href !in seen && FirstWithText(items, i) ==>
      items[i] in DedupeFrom(items, seen)
  {
    if items != [] {
      var x, rest := items[0], items[1..];
      var r := DedupeFrom(items, seen);
      forall i | 1 <= i < |items| && FirstWithText(items, i)
        ensures FirstWithText(rest, i - 1)
      {
        assert rest[i - 1] == items[i];
        forall j | 0 <= j < i - 1
          ensures rest[j].href != rest[i - 1].href || rest[j].text == ""
        {
          assert rest[j] == items[j + 1];
        }
      }
      var seen' := if x.href !in seen && x.text != "" then seen + {x.href} else seen;
      var tail := DedupeFrom(rest, seen');
      DedupeFromKeepsFirst(rest, seen');
      assert r == if x.href !in seen && x.text != "" then [x] + tail else tail;
      forall k | 0 <= k < |r|
        ensures FirstNewRecord(items, seen, r[k])
      {
        if x.href !in seen && x.text != "" && k == 0 {
          assert items[0] == r[0] && FirstWithText(items, 0);
        } else {
          var t := if x.href !in seen && x.text != "" then k - 1 else k;
          assert r[k] == tail[t];
          assert FirstNewRecord(rest, seen', tail[t]);
          var i' :| 0 <= i' < |rest| && rest[i'] == tail[t] && tail[t].href !in seen' && FirstWithText(rest, i');
          assert items[i' + 1] == rest[i'];
          forall j | 0 <= j < i' + 1
            ensures items[j].href != items[i' + 1].href || items[j].text == ""
          {
            if j > 0 {
              assert items[j] == rest[j - 1];
            }
          }
          assert FirstWithText(items, i' + 1);
        }
      }
      forall i | 0 <= i < |items| && items[i].href !in seen && FirstWithText(items, i)
        ensures items[i] in r
      {
        if i == 0 {
          assert r[0] == x;
        } else {
          assert FirstWithText(rest, i - 1) && rest[i - 1] == items[i];
          assert items[i].href != x.href || x.text == "";
          assert rest[i - 1] in tail;
        }
      }
    }
  }

  /** A list with distinct new hrefs and only non-empty texts passes dedupe unchanged. */
  lemma {:induction false} DedupeFromFixpoint(items: seq<LinkRecord>, seen: set<string>)
    requires DistinctHrefs(items) && NonEmptyTexts(items)
    requires forall i :: 0 <= i < |items| ==> items[i].href !in seen
    ensures DedupeFrom(items, seen) == items
  {
    if items != [] {
      var rest := items[1..];
      forall i | 0 <= i < |rest|
        ensures rest[i].href !in seen + {items[0].href}
      {
        assert rest[i] == items[i + 1];
      }
      DedupeFromFixpoint(rest, seen + {items[0].href});
      assert [items[0]] + rest == items;
    }
  }

  /**
   * Order-preserving, duplicate-free, text-only, complete, keeping the first
   * record with text for each href, and idempotent.
   */
  lemma DedupedProperties(items: seq<LinkRecord>)
    ensures IsSubsequence(Deduped(items), items)
    ensures DistinctHrefs(Deduped(items)) && NonEmptyTexts(Deduped(items))
    ensures Hrefs(Deduped(items)) == HrefsWithText(items)
    ensures forall k :: 0 <= k < |Deduped(items)| ==> FirstNewRecord(items, {}, Deduped(items)[k])
    ensures forall i :: 0 <= i < |items| && FirstWithText(items, i) ==> items[i] in Deduped(items)
    ensures Deduped(Deduped(items)) == Deduped(items)
  {
    DedupeFromSubsequence(items, {});
    DedupeFromKeepsFirst(items, {});
    DedupeFromShape(items, {});
    DedupeFromFixpoint(Deduped(items), {});
  }

  /** Two records for the same link reduce to the first. */
  lemma SameHrefScenario(text1: string, text2: string)
    requires text1 != "" && text2 != ""
    ensures Deduped([LinkRecord("http://shop.test/checkout", text1), LinkRecord("http://shop.test/checkout", text2)])
      == [LinkRecord("http://shop.test/checkout", text1)]
  {
    var a, b := LinkRecord("http://shop.test/checkout", text1), LinkRecord("http://shop.test/checkout", text2);
    var items := [a, b];
    assert items[1..] == [b];
    assert [b][1..] == [];
    assert DedupeFrom([b], {a.href}) == [];
    assert {} + {a.href} == {a.href};
    assert DedupeFrom(items, {}) == [a] + DedupeFrom([b], {a.href});
  }

  /** An empty-text record is dropped without marking its href seen, so a later record with that href survives. */
  lemma EmptyTextDoesNotClaimHref(href: string, text: string)
    requires text != ""
    ensures Deduped([LinkRecord(href, ""), LinkRecord(href, text)]) == [LinkRecord(href, text)]
  {
    var items := [LinkRecord(href, ""), LinkRecord(href, text)];
    var b := LinkRecord(href, text);
    assert items[1..] == [b];
    assert [b][1..] == [];
    assert DedupeFrom([b], {}) == [b];
  }
}
