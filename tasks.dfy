/**
 * The extraction tasks a check may list, run against the check's scope with
 * the check's value as the text pattern, and the mapping of their responses.
 */
module Tasks {
  import opened Wrappers
  import opened Dom
  import opened Links

  const StoreText: string := "store_associated_text"
  const StoreLink: string := "store_associated_link"

  /**
   * The `task_responses` mapping. A key is present (`Some`) once something has
   * been added under it, and stays present even if its list is later emptied.
   */
  datatype TaskResponses = TaskResponses(texts: Option<seq<string>>, links: Option<seq<LinkRecord>>) {
    predicate IsEmpty() {
      texts.None? && links.None?
    }
  }

  const NoResponses: TaskResponses := TaskResponses(None, None)

  /** The text of every text node the pattern matched. */
  function TextBatch(found: seq<TextNode>): seq<string> {
    seq(|found|, i requires 0 <= i < |found| => found[i].text)
  }

  /** A batch is stored only when it is non-empty and none of its strings is empty. */
  predicate Accepted(batch: seq<string>) {
    batch != [] && forall i :: 0 <= i < |batch| ==> batch[i] != ""
  }

  predicate InDocument(d: Document, found: seq<TextNode>) {
    forall i :: 0 <= i < |found| ==> found[i].container < |d.elements|
  }

  /**
   * The link record for one matched text node: the walk starts at the parent of
   * the first matching text inside the node's container, and the link it finds
   * is recorded with its href made absolute and its own text.
   */
  function LinkFor(d: Document, t: TextNode, pattern: string, urlparse: string -> UrlParts, page: UrlParts): Option<LinkRecord>
    requires Valid(d) && t.container < |d.elements|
  {
    match d.firstStringParent(t.container, pattern)
    case None => None
    case Some(start) =>
      match NearestAnchor(d.elements, start)
      case None => None
      case Some(a) => Some(LinkRecord(NormalizeHref(a.href, urlparse(a.href).netloc, page), a.text))
  }

  /** The link records for the matched text nodes `found`, in their order. */
  function LinkRecords(d: Document, found: seq<TextNode>, pattern: string, urlparse: string -> UrlParts, page: UrlParts): seq<LinkRecord>
    requires Valid(d) && InDocument(d, found)
  {
    if found == [] then []
    else
      var last := found[|found| - 1];
      LinkRecords(d, found[..|found| - 1], pattern, urlparse, page) +
        match LinkFor(d, last, pattern, urlparse, page)
        case None => []
        case Some(r) => [r]
  }

  /** Appending records one at a time under the link key; nothing appended leaves the key absent. */
  function AddLinks(acc: TaskResponses, records: seq<LinkRecord>): TaskResponses {
    if records == [] then acc else acc.(links := Some(acc.links.GetOr([]) + records))
  }

  lemma AddLinksTwice(acc: TaskResponses, records1: seq<LinkRecord>, records2: seq<LinkRecord>)
    requires records2 != []
    ensures AddLinks(AddLinks(acc, records1), records2) == AddLinks(acc, records1 + records2)
  {
    if records1 != [] {
      assert acc.links.GetOr([]) + records1 + records2 == acc.links.GetOr([]) + (records1 + records2);
    } else {
      assert records1 + records2 == records2;
    }
  }

  /** The responses after running `task` once more. Names other than the two tasks change nothing. */
  function AfterTask(task: string, d: Document, scope: nat, pattern: string, urlparse: string -> UrlParts,
                     page: UrlParts, acc: TaskResponses): TaskResponses
    requires Valid(d)
  {
    var found := d.findStrings(scope, pattern);
    if task == StoreText then
      var batch := TextBatch(found);
      if Accepted(batch) then acc.(texts := Some(acc.texts.GetOr([]) + batch)) else acc
    else if task == StoreLink then
      AddLinks(acc, LinkRecords(d, found, pattern, urlparse, page))
    else
      acc
  }

  /** The responses after running `tasks` in order, starting from an empty mapping. */
  function ResponsesFor(tasks: seq<string>, d: Document, scope: nat, pattern: string, urlparse: string -> UrlParts,
                        page: UrlParts): TaskResponses
    requires Valid(d)
  {
    if tasks == [] then NoResponses
    else AfterTask(tasks[|tasks| - 1], d, scope, pattern, urlparse, page,
                   ResponsesFor(tasks[..|tasks| - 1], d, scope, pattern, urlparse, page))
  }

  /** How many times `task` is listed in `tasks`. */
  function Occurrences(tasks: seq<string>, task: string): nat {
    if tasks == [] then 0
    else Occurrences(tasks[..|tasks| - 1], task) + (if tasks[|tasks| - 1] == task then 1 else 0)
  }

  /** `s` repeated `n` times. */
  function Repeat<T>(s: seq<T>, n: nat): seq<T> {
    if n == 0 then [] else Repeat(s, n - 1) + s
  }

  /**
   * What the responses hold, read off the task list: each listing of a task adds
   * that task's whole output again; text output is stored only when the batch is
   * accepted, link output only when some link was found; nothing else counts.
   */
  lemma {:induction false} ResponsesByOccurrences(tasks: seq<string>, d: Document, scope: nat, pattern: string,
                                                 urlparse: string -> UrlParts, page: UrlParts)
    requires Valid(d)
    ensures var r, found := ResponsesFor(tasks, d, scope, pattern, urlparse, page), d.findStrings(scope, pattern);
      var batch, records := TextBatch(found), LinkRecords(d, found, pattern, urlparse, page);
      var nt, nl := Occurrences(tasks, StoreText), Occurrences(tasks, StoreLink);
      && r.texts == (if nt > 0 && Accepted(batch) then Some(Repeat(batch, nt)) else None)
      && r.links == (if nl > 0 && records != [] then Some(Repeat(records, nl)) else None)
  {
    if tasks != [] {
      var prefix := tasks[..|tasks| - 1];
      ResponsesByOccurrences(prefix, d, scope, pattern, urlparse, page);
      var found := d.findStrings(scope, pattern);
      var batch, records := TextBatch(found), LinkRecords(d, found, pattern, urlparse, page);
      var prev := ResponsesFor(prefix, d, scope, pattern, urlparse, page);
      var task := tasks[|tasks| - 1];
      if task == StoreText && Accepted(batch) {
        assert Repeat(batch, Occurrences(prefix, StoreText) + 1) ==
          Repeat(batch, Occurrences(prefix, StoreText)) + batch;
        if Occurrences(prefix, StoreText) == 0 {
          assert Repeat(batch, 0) + batch == batch;
        }
      } else if task == StoreLink && records != [] {
        assert Repeat(records, Occurrences(prefix, StoreLink) + 1) ==
          Repeat(records, Occurrences(prefix, StoreLink)) + records;
        if Occurrences(prefix, StoreLink) == 0 {
          assert Repeat(records, 0) + records == records;
        }
      }
    }
  }

  /**
   * Only how often each of the two tasks is listed matters: reordering the list,
   * or adding or removing unknown task names, leaves the responses unchanged.
   */
  lemma SameTaskCountsSameResponses(tasks1: seq<string>, tasks2: seq<string>, d: Document, scope: nat,
                                    pattern: string, urlparse: string -> UrlParts, page: UrlParts)
    requires Valid(d)
    requires Occurrences(tasks1, StoreText) == Occurrences(tasks2, StoreText)
    requires Occurrences(tasks1, StoreLink) == Occurrences(tasks2, StoreLink)
    ensures ResponsesFor(tasks1, d, scope, pattern, urlparse, page) == ResponsesFor(tasks2, d, scope, pattern, urlparse, page)
  {
    ResponsesByOccurrences(tasks1, d, scope, pattern, urlparse, page);
    ResponsesByOccurrences(tasks2, d, scope, pattern, urlparse, page);
  }

  /** Stored text is all or nothing: every stored string is non-empty, and a rejected batch stores no key. */
  lemma {:induction false} StoredTextsNonEmpty(batch: seq<string>, n: nat)
    requires Accepted(batch)
    ensures forall i :: 0 <= i < |Repeat(batch, n)| ==> Repeat(batch, n)[i] != ""
    ensures |Repeat(batch, n)| == n * |batch|
  {
    if n > 0 {
      StoredTextsNonEmpty(batch, n - 1);
      var prev := Repeat(batch, n - 1);
      forall i | 0 <= i < |prev + batch|
        ensures (prev + batch)[i] != ""
      {
        if i >= |prev| {
          assert (prev + batch)[i] == batch[i - |prev|];
        } else {
          assert (prev + batch)[i] == prev[i];
        }
      }
    }
  }

  /** The walk yields at most one link record per matched text node. */
  lemma {:induction false} AtMostOneLinkPerTextNode(d: Document, found: seq<TextNode>, pattern: string,
                                                   urlparse: string -> UrlParts, page: UrlParts)
    requires Valid(d) && InDocument(d, found)
    ensures |LinkRecords(d, found, pattern, urlparse, page)| <= |found|
  {
    if found != [] {
      AtMostOneLinkPerTextNode(d, found[..|found| - 1], pattern, urlparse, page);
    }
  }

  // ---------------------------------------------------------------------------
  // The task loop
  // ---------------------------------------------------------------------------

  /**
   * The upward walk for one matched text node: find where it starts, then try
   * each ancestor in turn for a link until one has a link or the top is passed.
   */
  method WalkToLink(d: Document, container: nat, pattern: string) returns (link: Option<Anchor>)
    requires Valid(d) && container < |d.elements|
    ensures link == match d.firstStringParent(container, pattern)
                    case None => None
                    case Some(start) => NearestAnchor(d.elements, start)
  {
    ghost var goal := match d.firstStringParent(container, pattern)
                      case None => None
                      case Some(start) => NearestAnchor(d.elements, start);
    var parent: Option<nat> := d.firstStringParent(container, pattern);
    link := None;
    while link.None?
      invariant link.None?
      invariant parent.Some? ==> parent.value < |d.elements| && NearestAnchor(d.elements, parent.value) == goal
      invariant parent.None? ==> goal.None?
      decreases if parent.Some? then parent.value + 1 else 0
    {
      if parent.None? {
        break;
      }
      var p := parent.value;
      link := d.elements[p].firstAnchor;
      if link.Some? {
        break;
      }
      parent := d.elements[p].parent;
      if parent.None? {
        break;
      }
    }
  }

  /** `store_associated_link`: one walk per matched text node, appending each link found. */
  method StoreAssociatedLink(responses: TaskResponses, d: Document, scope: nat, pattern: string,
                             urlparse: string -> UrlParts, page: UrlParts) returns (updated: TaskResponses)
    requires Valid(d)
    ensures updated == AddLinks(responses, LinkRecords(d, d.findStrings(scope, pattern), pattern, urlparse, page))
  {
    var found := d.findStrings(scope, pattern);
    updated := responses;
    for i := 0 to |found|
      invariant updated == AddLinks(responses, LinkRecords(d, found[..i], pattern, urlparse, page))
    {
      assert found[..i + 1][..i] == found[..i];
      ghost var before := LinkRecords(d, found[..i], pattern, urlparse, page);
      var item := found[i];
      var link := WalkToLink(d, item.container, pattern);
      if link.Some? {
        var href := NormalizeHref(link.value.href, urlparse(link.value.href).netloc, page);
        var record := LinkRecord(href, link.value.text);
        assert LinkRecords(d, found[..i + 1], pattern, urlparse, page) == before + [record];
        AddLinksTwice(responses, before, [record]);
        updated := updated.(links := Some(updated.links.GetOr([]) + [record]));
      } else {
        assert LinkRecords(d, found[..i + 1], pattern, urlparse, page) == before;
      }
    }
    assert found[..|found|] == found;
  }

  /** The task loop of one check: each listed task in order, unknown names skipped. */
  method RunTasks(tasks: seq<string>, d: Document, scope: nat, pattern: string,
                  urlparse: string -> UrlParts, page: UrlParts) returns (responses: TaskResponses)
    requires Valid(d)
    ensures responses == ResponsesFor(tasks, d, scope, pattern, urlparse, page)
  {
    responses := NoResponses;
    for i := 0 to |tasks|
      invariant responses == ResponsesFor(tasks[..i], d, scope, pattern, urlparse, page)
    {
      assert tasks[..i + 1][..i] == tasks[..i];
      var task := tasks[i];
      if task == StoreText {
        var batch := TextBatch(d.findStrings(scope, pattern));
        if |batch| > 0 && forall k :: 0 <= k < |batch| ==> batch[k] != "" {
          responses := responses.(texts := Some(responses.texts.GetOr([]) + batch));
        }
      } else if task == StoreLink {
        responses := StoreAssociatedLink(responses, d, scope, pattern, urlparse, page);
      }
    }
    assert tasks[..|tasks|] == tasks;
  }
}
