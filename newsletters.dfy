/**
 * The newsletter registry: a list of issue records, newest first, with the
 * three lookups the site uses (the current issue, the archive, an issue by id).
 * The lookups are stated over any list; `Issues` is the list the site ships.
 */
module Newsletters {
  import opened Optional

  /** One issue's metadata. `coverColor` is the optional accent colour of its archive card. */
  datatype Newsletter = Newsletter(
    id: string,
    title: string,
    date: string,
    issue: int,
    description: string,
    pdfPath: string,
    coverColor: Option<string>)

  /** The shipped registry; its first entry is the one shown on the homepage. */
  const Issues: seq<Newsletter> := [
    Newsletter(
      "issue-1",
      "2026 is a-go!",
      "March 2026",
      1,
      "The inaugural issue of the 317 Squadron Newsletter. It's been a very busy start to 2026 with plenty of activities to recap, enjoy the first production of our new media team!",
      "/newsletters/issue-1.pdf",
      Some("#1F2E4A"))
  ]

  /** Ids are unique: the archive grid uses them as list keys. */
  ghost predicate UniqueIds(list: seq<Newsletter>) {
    forall i, j :: 0 <= i < j < |list| ==> list[i].id != list[j].id
  }

  /** The current issue: the head of the list (indexing an empty list is a configuration error). */
  function CurrentNewsletter(list: seq<Newsletter>): (n: Newsletter)
    requires |list| > 0
    ensures [n] + ArchiveNewsletters(list) == list
  {
    list[0]
  }

  /** Every issue but the current one, in list order; `slice(1)` of an empty list is empty. */
  function ArchiveNewsletters(list: seq<Newsletter>): (r: seq<Newsletter>)
    ensures |r| == if |list| == 0 then 0 else |list| - 1
    ensures forall i :: 0 <= i < |r| ==> r[i] == list[i + 1]
  {
    if |list| == 0 then [] else list[1..]
  }

  /** The first issue whose id is `id`, as `Array.prototype.find` returns it; `None` when no issue has that id. */
  function NewsletterById(list: seq<Newsletter>, id: string): (r: Option<Newsletter>)
    ensures r.None? <==> forall i :: 0 <= i < |list| ==> list[i].id != id
    ensures r.Some? ==> exists i :: 0 <= i < |list| && list[i] == r.value && r.value.id == id &&
                                    forall j :: 0 <= j < i ==> list[j].id != id
  {
    if |list| == 0 then None
    else if list[0].id == id then Some(list[0])
    else
      var rest := NewsletterById(list[1..], id);
      assert forall i :: 1 <= i < |list| ==> list[i] == list[1..][i - 1];
      rest
  }

  /** With unique ids, looking up the id of any listed issue finds exactly that issue. */
  lemma {:induction false} LookupListed(list: seq<Newsletter>, k: nat)
    requires UniqueIds(list)
    requires k < |list|
    ensures NewsletterById(list, list[k].id) == Some(list[k])
  {
    var r := NewsletterById(list, list[k].id);
    assert r.Some?;
    var i :| 0 <= i < |list| && list[i] == r.value && r.value.id == list[k].id &&
             forall j :: 0 <= j < i ==> list[j].id != list[k].id;
    assert i == k;
  }

  /** The shipped registry is well formed: it has a current issue and unique ids. */
  lemma ShippedRegistry()
    ensures |Issues| > 0 && UniqueIds(Issues)
    ensures CurrentNewsletter(Issues).id == "issue-1"
    ensures ArchiveNewsletters(Issues) == []
  {
  }
}
