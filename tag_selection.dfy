/**
 * The tag-selection state behind the tag buttons: the selected tags
 * (`onList`), the tags on display (`tags`) and the posts that carry every
 * selected tag (`filteredPosts`). Toggling a tag flips its selection and puts
 * the selected tags first; recomputing the results filters the posts by the
 * selection and offers the tags those posts carry. The state setters the
 * component passes in become assignments to the fields.
 */
module TagSelection {
  import opened Sequences
  import opened DataLoader

  /**
   * The tag list shown after a change of selection: the selected tags in
   * their order, then the tags of `rest` that are not selected, in their order.
   */
  function SelectedFirst(onList: seq<string>, rest: seq<string>): (r: seq<string>)
    ensures onList <= r
    ensures forall t :: t in r <==> t in onList || t in rest
    ensures forall t :: t in r[|onList|..] <==> t in rest && t !in onList
    ensures IsSubseq(r[|onList|..], rest)
    ensures forall t :: multiset(r[|onList|..])[t] == if t in onList then 0 else multiset(rest)[t]
    ensures NoDup(onList) && NoDup(rest) ==> NoDup(r)
  {
    var others := Difference(rest, onList);
    if NoDup(onList) && NoDup(rest) then
      NoDupAppend(onList, others);
      assert (onList + others)[|onList|..] == others;
      onList + others
    else
      assert (onList + others)[|onList|..] == others;
      onList + others
  }

  /** The tags carried by the given posts, each once, in order of first appearance. */
  function AvailableTags(filtered: seq<Post>): (r: seq<string>)
    ensures NoDup(r)
    ensures forall t :: t in r <==> exists p :: p in filtered && t in p.tags
    ensures IsSubseq(r, FlatTags(filtered))
    ensures forall i, j :: 0 <= i < j < |r| ==> FirstIndex(FlatTags(filtered), r[i]) < FirstIndex(FlatTags(filtered), r[j])
  {
    Uniq(FlatTags(filtered))
  }

  /**
   * A tag offered after filtering by `onList` can always be selected next
   * without emptying the results: some post carries it and every selected tag.
   */
  lemma OfferedTagKeepsResults(posts: seq<Post>, onList: seq<string>, t: string)
    requires t in AvailableTags(FilterPostsByTags(posts, onList))
    ensures FilterPostsByTags(posts, onList + [t]) != []
  {
    var p :| p in FilterPostsByTags(posts, onList) && t in p.tags;
    assert HasAllTags(p, onList + [t]);
    assert p in FilterPostsByTags(posts, onList + [t]);
  }

  /** Toggling an unselected tag twice restores a duplicate-free selection exactly. */
  lemma ToggleTwiceRestores(s: seq<string>, x: string)
    requires NoDup(s) && x !in s
    ensures Xor(Xor(s, x), x) == s
  {
    ToggleOnFresh(s, x);
    DifferenceAppend(s, x, [x]);
    assert Difference(s, [x]) == s;
  }

  /** Toggling a selected tag twice moves it to the end of the selection. */
  lemma ToggleTwiceMovesToEnd(s: seq<string>, x: string)
    requires NoDup(s) && x in s
    ensures Xor(Xor(s, x), x) == Difference(s, [x]) + [x]
  {
    var d := Difference(s, [x]);
    assert Xor(s, x) == d;
    assert x !in d;
  }

  /**
   * So toggling is not its own inverse: toggling twice any selected tag but
   * the last one changes the selection.
   */
  lemma ToggleTwiceChanges(s: seq<string>, x: string)
    requires NoDup(s) && x in s && s[|s| - 1] != x
    ensures Xor(Xor(s, x), x) != s
  {
    ToggleTwiceMovesToEnd(s, x);
    var r := Difference(s, [x]) + [x];
    assert r[|r| - 1] == x;
  }

  /** Selecting a tag missing from a duplicate-free selection appends it. */
  lemma ToggleOnFresh(s: seq<string>, x: string)
    requires NoDup(s) && x !in s
    ensures Xor(s, x) == s + [x]
  {
    assert Uniq(s) == s;
  }

  class Selection {
    /** The selected tags, in the order they were selected. */
    var onList: seq<string>
    /** The tags on display: the selected ones first. */
    var tags: seq<string>
    /** The posts that match the selection. */
    var filteredPosts: seq<Post>

    /** Neither list repeats a tag, and the selection heads the displayed list. */
    ghost predicate Valid()
      reads this
    {
      NoDup(onList) && NoDup(tags) && onList <= tags
    }

    /** A session starts with nothing selected, every post shown and the extracted tags on display. */
    constructor(posts: seq<Post>)
      ensures onList == [] && tags == ExtractTags(posts) && filteredPosts == posts
      ensures Valid()
    {
      onList := [];
      tags := ExtractTags(posts);
      filteredPosts := posts;
    }

    /**
     * `toggleTagButton`: flips the selection of `tag` and redisplays the
     * selected tags first, followed by the other tags on display in their
     * previous order. The results are left for `UpdateResults`.
     */
    method ToggleTagButton(tag: string)
      requires Valid()
      modifies this
      ensures onList == Xor(old(onList), tag)
      ensures tags == SelectedFirst(onList, old(tags))
      ensures unchanged(`filteredPosts)
      ensures Valid()
    {
      var newOnList := Xor(onList, tag);
      var newTags := SelectedFirst(newOnList, tags);
      onList := newOnList;
      tags := newTags;
    }

    /**
     * `updateResults`: shows the posts that carry every selected tag, and
     * displays the selected tags followed by the other tags those posts carry.
     */
    method UpdateResults(posts: seq<Post>)
      modifies this
      ensures onList == old(onList)
      ensures filteredPosts == FilterPostsByTags(posts, onList)
      ensures tags == SelectedFirst(onList, AvailableTags(filteredPosts))
      ensures forall t :: t in tags <==> t in onList || exists p :: p in filteredPosts && t in p.tags
      ensures old(Valid()) ==> Valid()
    {
      var filtered := FilterPostsByTags(posts, onList);
      filteredPosts := filtered;
      tags := SelectedFirst(onList, AvailableTags(filtered));
    }
  }

  /**
   * Recomputing the results is idempotent: from a state that `updateResults`
   * produced from the same posts, it changes nothing.
   */
  method UpdateResultsAgain(s: Selection, posts: seq<Post>)
    requires s.filteredPosts == FilterPostsByTags(posts, s.onList)
    requires s.tags == SelectedFirst(s.onList, AvailableTags(s.filteredPosts))
    modifies s
    ensures s.onList == old(s.onList) && s.filteredPosts == old(s.filteredPosts) && s.tags == old(s.tags)
  {
    s.UpdateResults(posts);
  }
}
