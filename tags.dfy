/** The tag step shared by createProduct and updateProduct in
    lib/actions/product.actions.ts: every tag name of the form is turned into a
    slug with `generateSlug`, the tag with that slug is looked up, and it is
    created when there is none. The names are handled one after the other, in
    order; the clock reading taken for name `i` is `stamps(i)`. */
module Tags {
  import opened Wrappers
  import opened Slug
  import opened Catalog

  /** The tag table and the id the next created tag receives. */
  datatype TagTable = TagTable(tags: seq<Tag>, nextId: nat)

  /** Distinct ids, distinct slugs, and every id below the next one. */
  predicate TagsValid(t: TagTable) {
    && (forall i, j :: 0 <= i < j < |t.tags| ==>
          t.tags[i].id != t.tags[j].id && t.tags[i].slug != t.tags[j].slug)
    && (forall i :: 0 <= i < |t.tags| ==> t.tags[i].id < t.nextId)
  }

  /** `productTag.findUnique({ where: { slug } })`. */
  function FindTagBySlug(tags: seq<Tag>, slug: string): (r: Option<Tag>)
    ensures r.Some? ==> r.value in tags && r.value.slug == slug
    ensures r == None <==> forall t :: t in tags ==> t.slug != slug
  {
    if tags == [] then None
    else if tags[0].slug == slug then Some(tags[0])
    else FindTagBySlug(tags[1..], slug)
  }

  /** A lookup that succeeds keeps its answer when tags are appended. */
  lemma {:induction false} FindTagInPrefix(tags: seq<Tag>, more: seq<Tag>, slug: string)
    requires FindTagBySlug(tags, slug).Some?
    ensures FindTagBySlug(tags + more, slug) == FindTagBySlug(tags, slug)
  {
    if tags[0].slug != slug {
      assert (tags + more)[1..] == tags[1..] + more;
      FindTagInPrefix(tags[1..], more, slug);
    }
  }

  /** `generateSlug(tagName)` for every name, name `i` at clock reading
      `stamps(i)`. */
  function TagSlugs(names: seq<string>, stamps: nat -> nat): (r: seq<string>)
    ensures |r| == |names|
    ensures forall i :: 0 <= i < |names| ==> r[i] == GenerateSlug(names[i], stamps(i))
  {
    seq(|names|, i requires 0 <= i < |names| => GenerateSlug(names[i], stamps(i)))
  }

  /** The tag id for one name: the id of the tag that has the name's slug, or
      the id of a tag created with that name and slug. */
  function ResolveOne(t: TagTable, name: string, slug: string): (r: (TagTable, nat))
    ensures
      && t.tags <= r.0.tags
      && (FindTagBySlug(t.tags, slug).Some? ==> r == (t, FindTagBySlug(t.tags, slug).value.id))
      && (FindTagBySlug(t.tags, slug) == None ==>
            r.0 == TagTable(t.tags + [Tag(t.nextId, name, slug)], t.nextId + 1) && r.1 == t.nextId)
  {
    match FindTagBySlug(t.tags, slug)
    case Some(tag) => (t, tag.id)
    case None => (TagTable(t.tags + [Tag(t.nextId, name, slug)], t.nextId + 1), t.nextId)
  }

  /** The one-name step keeps the table valid. */
  lemma ResolveOneValid(t: TagTable, name: string, slug: string)
    requires TagsValid(t)
    ensures TagsValid(ResolveOne(t, name, slug).0)
  {
  }

  /** The id the one-name step answers is that of the tag the table now holds
      under the name's slug. */
  lemma ResolveOneFound(t: TagTable, name: string, slug: string)
    ensures var r := ResolveOne(t, name, slug);
      && FindTagBySlug(r.0.tags, slug).Some?
      && FindTagBySlug(r.0.tags, slug).value.id == r.1
  {
    if FindTagBySlug(t.tags, slug) == None {
      NewTagIsFound(t.tags, Tag(t.nextId, name, slug));
    }
  }

  /** A tag whose slug the table does not hold is found once appended. */
  lemma {:induction false} NewTagIsFound(tags: seq<Tag>, tag: Tag)
    requires FindTagBySlug(tags, tag.slug) == None
    ensures FindTagBySlug(tags + [tag], tag.slug) == Some(tag)
  {
    if tags != [] {
      assert (tags + [tag])[1..] == tags[1..] + [tag];
      NewTagIsFound(tags[1..], tag);
    }
  }

  /** All the names, in order, name `i` under slug `slugs[i]`: the final table
      and one id per name. */
  function ResolveAll(t: TagTable, names: seq<string>, slugs: seq<string>): (r: (TagTable, seq<nat>))
    requires |slugs| == |names|
    ensures |r.1| == |names|
    ensures t.tags <= r.0.tags
    ensures |r.0.tags| <= |t.tags| + |names|
    ensures r.0.nextId == t.nextId + (|r.0.tags| - |t.tags|)
  {
    if names == [] then (t, [])
    else
      var n := |names| - 1;
      var prev := ResolveAll(t, names[..n], slugs[..n]);
      var step := ResolveOne(prev.0, names[n], slugs[n]);
      (step.0, prev.1 + [step.1])
  }

  /** Resolving one more name extends the resolution of the names before it
      by one step. */
  lemma ResolveAllSnoc(t: TagTable, names: seq<string>, slugs: seq<string>, i: nat)
    requires |slugs| == |names| && i < |names|
    ensures var prev := ResolveAll(t, names[..i], slugs[..i]);
      var step := ResolveOne(prev.0, names[i], slugs[i]);
      ResolveAll(t, names[..i + 1], slugs[..i + 1]) == (step.0, prev.1 + [step.1])
  {
    assert names[..i + 1][..i] == names[..i] && slugs[..i + 1][..i] == slugs[..i];
  }

  /** Resolution keeps the table valid. */
  lemma {:induction false} ResolveAllValid(t: TagTable, names: seq<string>, slugs: seq<string>)
    requires |slugs| == |names|
    requires TagsValid(t)
    ensures TagsValid(ResolveAll(t, names, slugs).0)
  {
    if names != [] {
      var n := |names| - 1;
      ResolveAllValid(t, names[..n], slugs[..n]);
      ResolveOneValid(ResolveAll(t, names[..n], slugs[..n]).0, names[n], slugs[n]);
    }
  }

  /** `ids[i]` is the id of the tag that `table` holds under `slugs[i]`. */
  predicate Answers(table: TagTable, slugs: seq<string>, ids: seq<nat>) {
    && |ids| == |slugs|
    && forall i :: 0 <= i < |slugs| ==>
         FindTagBySlug(table.tags, slugs[i]).Some? && FindTagBySlug(table.tags, slugs[i]).value.id == ids[i]
  }

  /** One more step keeps every earlier answer and answers the new slug. */
  lemma AnswersStep(table: TagTable, slugs: seq<string>, ids: seq<nat>, name: string, slug: string)
    requires Answers(table, slugs, ids)
    ensures var step := ResolveOne(table, name, slug);
      Answers(step.0, slugs + [slug], ids + [step.1])
  {
    var step := ResolveOne(table, name, slug);
    ResolveOneFound(table, name, slug);
    var more := step.0.tags[|table.tags|..];
    assert step.0.tags == table.tags + more;
    var sl, answered := slugs + [slug], ids + [step.1];
    forall i | 0 <= i < |sl|
      ensures FindTagBySlug(step.0.tags, sl[i]).Some? && FindTagBySlug(step.0.tags, sl[i]).value.id == answered[i]
    {
      if i < |slugs| {
        assert sl[i] == slugs[i] && answered[i] == ids[i];
        FindTagInPrefix(table.tags, more, slugs[i]);
      }
    }
  }

  /** Resolution answers for every name the id of the tag that now carries
      the name's slug. */
  lemma {:induction false} ResolveAllFound(t: TagTable, names: seq<string>, slugs: seq<string>)
    requires |slugs| == |names|
    ensures Answers(ResolveAll(t, names, slugs).0, slugs, ResolveAll(t, names, slugs).1)
  {
    if names != [] {
      var n := |names| - 1;
      var prev := ResolveAll(t, names[..n], slugs[..n]);
      ResolveAllFound(t, names[..n], slugs[..n]);
      AnswersStep(prev.0, slugs[..n], prev.1, names[n], slugs[n]);
      assert slugs[..n] + [slugs[n]] == slugs;
    }
  }

  /** `ids[i]` is the id of the tag that `tags` held under `slugs[i]`, when
      it held one. */
  predicate Reuses(tags: seq<Tag>, slugs: seq<string>, ids: seq<nat>) {
    && |ids| == |slugs|
    && forall i :: 0 <= i < |slugs| && FindTagBySlug(tags, slugs[i]).Some? ==>
         ids[i] == FindTagBySlug(tags, slugs[i]).value.id
  }

  /** One more step on a table that extends `tags` keeps reusing. */
  lemma ReusesStep(tags: seq<Tag>, table: TagTable, slugs: seq<string>, ids: seq<nat>, name: string, slug: string)
    requires tags <= table.tags
    requires Reuses(tags, slugs, ids)
    ensures var step := ResolveOne(table, name, slug);
      Reuses(tags, slugs + [slug], ids + [step.1])
  {
    var step := ResolveOne(table, name, slug);
    if FindTagBySlug(tags, slug).Some? {
      var rest := table.tags[|tags|..];
      assert table.tags == tags + rest;
      FindTagInPrefix(tags, rest, slug);
    }
    var sl, answered := slugs + [slug], ids + [step.1];
    forall i | 0 <= i < |sl| && FindTagBySlug(tags, sl[i]).Some?
      ensures answered[i] == FindTagBySlug(tags, sl[i]).value.id
    {
      if i < |slugs| {
        assert sl[i] == slugs[i] && answered[i] == ids[i];
      }
    }
  }

  /** A name whose slug the table already held gets that tag's id: nothing
      is created for it. */
  lemma {:induction false} ResolveAllReuses(t: TagTable, names: seq<string>, slugs: seq<string>)
    requires |slugs| == |names|
    ensures Reuses(t.tags, slugs, ResolveAll(t, names, slugs).1)
  {
    if names != [] {
      var n := |names| - 1;
      var prev := ResolveAll(t, names[..n], slugs[..n]);
      ResolveAllReuses(t, names[..n], slugs[..n]);
      ReusesStep(t.tags, prev.0, slugs[..n], prev.1, names[n], slugs[n]);
      assert slugs[..n] + [slugs[n]] == slugs;
    }
  }

  /** Every id that resolution answers belongs to a tag of the final table. */
  lemma ResolvedIdsExist(t: TagTable, names: seq<string>, slugs: seq<string>)
    requires |slugs| == |names|
    ensures var r := ResolveAll(t, names, slugs);
      forall i :: 0 <= i < |names| ==> exists tag :: tag in r.0.tags && tag.id == r.1[i]
  {
    ResolveAllFound(t, names, slugs);
    var r := ResolveAll(t, names, slugs);
    forall i | 0 <= i < |names| ensures exists tag :: tag in r.0.tags && tag.id == r.1[i] {
      var tag := FindTagBySlug(r.0.tags, slugs[i]).value;
      assert tag in r.0.tags && tag.id == r.1[i];
    }
  }
}
