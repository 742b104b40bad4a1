/**
 * The catalog of civic-service entries and the tag vocabulary built from it
 * once, after loading, for the "did you mean" suggestions.
 */
module Catalog {
  import opened Wrappers
  import opened Text

  /** A link of an entry (`type`, `label`, `url`); `linkType` is "" when the record gives no type. */
  datatype Link = Link(linkType: string, linkLabel: string, url: string)

  /**
   * An entry as the loader leaves it: `name`, `org` and `summary` are strings
   * ("" when missing), `tags` are lower-cased, and `priority` is `None` when
   * the record's priority is missing or is not a number.
   */
  datatype Entry = Entry(
    id: string,
    name: string,
    org: string,
    summary: string,
    tags: seq<string>,
    links: seq<Link>,
    priority: Option<real>)

  function LowerAll(ts: seq<string>): seq<string>
  {
    seq(|ts|, i requires 0 <= i < |ts| => LowerStr(ts[i]))
  }

  /** Every entry's lower-cased tags, entry after entry and tag after tag. */
  function AllTags(es: seq<Entry>): seq<string>
  {
    if es == [] then [] else AllTags(es[..|es| - 1]) + LowerAll(es[|es| - 1].tags)
  }

  /** `x` is the lower-cased form of some tag of some entry of `es`. */
  ghost predicate IsTagOf(es: seq<Entry>, x: string)
  {
    exists k, j :: 0 <= k < |es| && 0 <= j < |es[k].tags| && x == LowerStr(es[k].tags[j])
  }

  lemma {:induction false} AllTagsMembers(es: seq<Entry>, x: string)
    ensures x in AllTags(es) <==> IsTagOf(es, x)
  {
    if es != [] {
      var es', e := es[..|es| - 1], es[|es| - 1];
      AllTagsMembers(es', x);
      if IsTagOf(es, x) {
        var k, j :| 0 <= k < |es| && 0 <= j < |es[k].tags| && x == LowerStr(es[k].tags[j]);
        if k < |es'| {
          assert es'[k] == es[k];
        } else {
          assert LowerAll(e.tags)[j] == x;
        }
      }
      if x in AllTags(es') {
        var k, j :| 0 <= k < |es'| && 0 <= j < |es'[k].tags| && x == LowerStr(es'[k].tags[j]);
        assert es[k] == es'[k];
      }
      if x in LowerAll(e.tags) {
        var j :| 0 <= j < |e.tags| && LowerAll(e.tags)[j] == x;
        assert IsTagOf(es, x) by { assert es[|es| - 1] == e; }
      }
    }
  }

  /**
   * `buildTagPool`: the distinct lower-cased tags of all entries, each listed
   * once, in the order in which they are first met.
   */
  method BuildTagPool(entries: seq<Entry>) returns (pool: seq<string>)
    ensures pool == Dedup(AllTags(entries))
    ensures Distinct(pool)
    ensures forall x :: x in pool <==> IsTagOf(entries, x)
    ensures forall i, j :: 0 <= i < j < |pool| ==>
              IndexOf(AllTags(entries), pool[i]) < IndexOf(AllTags(entries), pool[j])
  {
    pool := [];
    for i := 0 to |entries|
      invariant pool == Dedup(AllTags(entries[..i]))
    {
      pool := AddTags(pool, AllTags(entries[..i]), entries[i].tags);
      assert entries[..i + 1][..i] == entries[..i];
    }
    assert entries[..|entries|] == entries;
    forall x ensures x in pool <==> IsTagOf(entries, x) {
      AllTagsMembers(entries, x);
    }
    DedupFirstSeen(AllTags(entries));
  }

  /** The inner loop: `set.add` of each lower-cased tag of one entry. */
  method AddTags(pool: seq<string>, ghost before: seq<string>, tags: seq<string>)
    returns (pool': seq<string>)
    requires pool == Dedup(before)
    ensures pool' == Dedup(before + LowerAll(tags))
  {
    pool' := pool;
    assert before + LowerAll(tags[..0]) == before;
    for j := 0 to |tags|
      invariant pool' == Dedup(before + LowerAll(tags[..j]))
    {
      var t := LowerStr(tags[j]);
      assert before + LowerAll(tags[..j + 1]) == (before + LowerAll(tags[..j])) + [t];
      DedupSnoc(before + LowerAll(tags[..j]), t);
      if t !in pool' {
        pool' := pool' + [t];
      }
    }
    assert tags[..|tags|] == tags;
  }
}
