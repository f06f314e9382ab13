/**
 * The post pipeline of the site: deduplication by name, tag ordering, tag
 * extraction, and filtering by selected tags and by a search query.
 *
 * Two string functions come from outside the pipeline and are left
 * uninterpreted: `String.prototype.toLowerCase` and TinyPinyin's
 * `convertToPinyin`. They are carried in a `TextOps` value, so every
 * property below holds whatever those two functions do.
 */
module DataLoader {
  import opened Sequences
  import opened Strings
  import opened Sorting

  /** One curated link, as the Notion adapter produces it. `state` is absent unless set. */
  datatype Post = Post(id: string, name: string, tags: seq<string>, web: string, state: Option<string>)

  /** The foreign string functions: lower-casing and pinyin transliteration. */
  datatype TextOps = TextOps(lower: string -> string, pinyin: string -> string)

  /** The state that hides a post from the tag list, and the query that disables search. */
  const Hidden: string := "隐藏"

  predicate IsVisible(p: Post) {
    p.state != Some(Hidden)
  }

  function NameOf(p: Post): string {
    p.name
  }

  /**
   * `unique`: one post per name, the first one with that name, in the order
   * the names first appear; every name of the input survives.
   */
  function Unique(posts: seq<Post>): (r: seq<Post>)
    ensures IsSubseq(r, posts)
    ensures forall i, j :: 0 <= i < j < |r| ==> r[i].name != r[j].name
    ensures KeysOf(r, NameOf) == KeysOf(posts, NameOf)
    ensures forall p :: p in r ==> FirstWithKey(posts, NameOf, p.name) == Some(p)
    ensures forall i, j :: 0 <= i < j < |r| ==>
      FirstKeyIndex(posts, NameOf, r[i].name) < FirstKeyIndex(posts, NameOf, r[j].name)
  {
    UniqByFacts(posts, NameOf);
    var r := UniqBy(posts, NameOf);
    assert forall i :: 0 <= i < |r| ==> NameOf(r[i]) == r[i].name;
    r
  }

  /** A character of the CJK Unified Ideographs range U+4E00..U+9FA5, the class `[\u4e00-\u9fa5]`. */
  predicate IsChineseChar(c: char) {
    '\U{4E00}' <= c <= '\U{9FA5}'
  }

  /** The tag holds a Chinese character somewhere (the regular expression test). */
  predicate HasChinese(t: string) {
    |t| != 0 && (IsChineseChar(t[0]) || HasChinese(t[1..]))
  }

  predicate NoChinese(t: string) {
    !HasChinese(t)
  }

  /** How `sortByAlphabetAndChinese` ranks a tag: by its lower-cased form, or, for a Chinese tag, by its pinyin. */
  datatype TagKey = Alphabet(lowered: string) | Chinese(pinyin: string)

  function KeyOf(ops: TextOps): string -> TagKey {
    t => if HasChinese(t) then Chinese(ops.pinyin(t)) else Alphabet(ops.lower(t))
  }

  /**
   * `sortByAlphabetAndChinese`: partitions the tags into those without a
   * Chinese character and those with one, sorts the first part by lower-cased
   * form and the second by pinyin (both with lodash's stable `sortBy`), and
   * concatenates them.
   */
  function SortByAlphabetAndChinese(arr: seq<string>, ops: TextOps): seq<string> {
    SortBy(Filter(arr, NoChinese), ops.lower) + SortBy(Filter(arr, HasChinese), ops.pinyin)
  }

  /** The two sorted blocks: tags without a Chinese character, then tags with one. */
  lemma SortedBlocks(arr: seq<string>, ops: TextOps)
    ensures multiset(SortBy(Filter(arr, NoChinese), ops.lower)) == multiset(Filter(arr, NoChinese))
    ensures multiset(SortBy(Filter(arr, HasChinese), ops.pinyin)) == multiset(Filter(arr, HasChinese))
    ensures forall x :: x in SortBy(Filter(arr, NoChinese), ops.lower) ==> NoChinese(x)
    ensures forall x :: x in SortBy(Filter(arr, HasChinese), ops.pinyin) ==> HasChinese(x)
    ensures SortedBy(SortBy(Filter(arr, NoChinese), ops.lower), ops.lower)
    ensures SortedBy(SortBy(Filter(arr, HasChinese), ops.pinyin), ops.pinyin)
  {
    var alphabet, chinese := Filter(arr, NoChinese), Filter(arr, HasChinese);
    var sa, sc := SortBy(alphabet, ops.lower), SortBy(chinese, ops.pinyin);
    FilterFacts(arr, NoChinese);
    FilterFacts(arr, HasChinese);
    SortByFacts(alphabet, ops.lower);
    SortByFacts(chinese, ops.pinyin);
    forall x | x in sa ensures NoChinese(x) {
      assert x in multiset(sa);
    }
    forall x | x in sc ensures HasChinese(x) {
      assert x in multiset(sc);
    }
  }

  /** Two blocks, each sorted by its own key, the non-Chinese block first. */
  lemma TwoBlocks(sa: seq<string>, sc: seq<string>, ops: TextOps)
    requires forall x :: x in sa ==> NoChinese(x)
    requires forall x :: x in sc ==> HasChinese(x)
    requires SortedBy(sa, ops.lower) && SortedBy(sc, ops.pinyin)
    ensures var r := sa + sc;
      && (forall i, j :: 0 <= i < j < |r| && HasChinese(r[i]) ==> HasChinese(r[j]))
      && (forall i, j :: 0 <= i < j < |r| && NoChinese(r[j]) ==> LexLe(ops.lower(r[i]), ops.lower(r[j])))
      && (forall i, j :: 0 <= i < j < |r| && HasChinese(r[i]) ==> LexLe(ops.pinyin(r[i]), ops.pinyin(r[j])))
  {
    var r := sa + sc;
    assert forall i :: 0 <= i < |r| ==> (i < |sa| <==> NoChinese(r[i])) by {
      forall i | 0 <= i < |r| ensures i < |sa| <==> NoChinese(r[i]) {
        if i < |sa| {
          assert r[i] == sa[i] && sa[i] in sa;
        } else {
          assert r[i] == sc[i - |sa|] && sc[i - |sa|] in sc;
        }
      }
    }
    forall i, j | 0 <= i < j < |r| && NoChinese(r[j])
      ensures LexLe(ops.lower(r[i]), ops.lower(r[j]))
    {
      assert r[i] == sa[i] && r[j] == sa[j];
    }
    forall i, j | 0 <= i < j < |r| && HasChinese(r[i])
      ensures LexLe(ops.pinyin(r[i]), ops.pinyin(r[j]))
    {
      assert r[i] == sc[i - |sa|] && r[j] == sc[j - |sa|];
    }
  }

  /** The result is a permutation of the input, in two blocks, each ordered by its own key. */
  lemma SortByAlphabetAndChineseOrder(arr: seq<string>, ops: TextOps)
    ensures var r := SortByAlphabetAndChinese(arr, ops);
      && multiset(r) == multiset(arr)
      && (forall i, j :: 0 <= i < j < |r| && HasChinese(r[i]) ==> HasChinese(r[j]))
      && (forall i, j :: 0 <= i < j < |r| && NoChinese(r[j]) ==> LexLe(ops.lower(r[i]), ops.lower(r[j])))
      && (forall i, j :: 0 <= i < j < |r| && HasChinese(r[i]) ==> LexLe(ops.pinyin(r[i]), ops.pinyin(r[j])))
  {
    var sa, sc := SortBy(Filter(arr, NoChinese), ops.lower), SortBy(Filter(arr, HasChinese), ops.pinyin);
    SortedBlocks(arr, ops);
    FilterSplit(arr, NoChinese, HasChinese);
    TwoBlocks(sa, sc, ops);
  }

  /** Tags that rank equal (same block, same key) keep their input order. */
  lemma SortByAlphabetAndChineseStable(arr: seq<string>, ops: TextOps, k: TagKey)
    ensures WithKey(SortByAlphabetAndChinese(arr, ops), KeyOf(ops), k) == WithKey(arr, KeyOf(ops), k)
  {
    var sa, sc := SortBy(Filter(arr, NoChinese), ops.lower), SortBy(Filter(arr, HasChinese), ops.pinyin);
    WithKeyAppend(sa, sc, KeyOf(ops), k);
    SortedBlocks(arr, ops);
    if k.Alphabet? {
      StableAlphabetBlock(arr, ops, k);
      WithKeyNone(sc, KeyOf(ops), k);
      assert WithKey(sa, KeyOf(ops), k) + [] == WithKey(sa, KeyOf(ops), k);
    } else {
      StableChineseBlock(arr, ops, k);
      WithKeyNone(sa, KeyOf(ops), k);
      assert [] + WithKey(sc, KeyOf(ops), k) == WithKey(sc, KeyOf(ops), k);
    }
  }

  lemma StableAlphabetBlock(arr: seq<string>, ops: TextOps, k: TagKey)
    requires k.Alphabet?
    ensures WithKey(SortBy(Filter(arr, NoChinese), ops.lower), KeyOf(ops), k) == WithKey(arr, KeyOf(ops), k)
  {
    var alphabet := Filter(arr, NoChinese);
    var sa := SortBy(alphabet, ops.lower);
    FilterMembers(arr, NoChinese);
    SortByPermutes(alphabet, ops.lower);
    forall x | x in sa ensures x in alphabet {
      assert x in multiset(sa);
    }
    SortByStable(alphabet, ops.lower, k.lowered);
    WithKeyAgree(sa, KeyOf(ops), k, ops.lower, k.lowered);
    WithKeyAgree(alphabet, KeyOf(ops), k, ops.lower, k.lowered);
    WithKeyFilter(arr, NoChinese, KeyOf(ops), k);
  }

  lemma StableChineseBlock(arr: seq<string>, ops: TextOps, k: TagKey)
    requires k.Chinese?
    ensures WithKey(SortBy(Filter(arr, HasChinese), ops.pinyin), KeyOf(ops), k) == WithKey(arr, KeyOf(ops), k)
  {
    var chinese := Filter(arr, HasChinese);
    var sc := SortBy(chinese, ops.pinyin);
    FilterMembers(arr, HasChinese);
    SortByPermutes(chinese, ops.pinyin);
    forall x | x in sc ensures x in chinese {
      assert x in multiset(sc);
    }
    SortByStable(chinese, ops.pinyin, k.pinyin);
    WithKeyAgree(sc, KeyOf(ops), k, ops.pinyin, k.pinyin);
    WithKeyAgree(chinese, KeyOf(ops), k, ops.pinyin, k.pinyin);
    WithKeyFilter(arr, HasChinese, KeyOf(ops), k);
  }

  /** `flatMap(post => post.tags)`: every tag of every post, post after post. */
  function FlatTags(posts: seq<Post>): (r: seq<string>)
    ensures forall t :: t in r <==> exists p :: p in posts && t in p.tags
  {
    if posts == [] then []
    else
      var r := FlatTags(posts[..|posts| - 1]) + posts[|posts| - 1].tags;
      assert forall p :: p in posts <==> p in posts[..|posts| - 1] || p == posts[|posts| - 1] by {
        assert posts == posts[..|posts| - 1] + [posts[|posts| - 1]];
      }
      r
  }

  /**
   * `extractTags` (without the sort call at its end, see the README): the
   * distinct tags of the posts that are not hidden, in the order they first
   * occur on those posts.
   */
  function ExtractTags(posts: seq<Post>): (r: seq<string>)
    ensures NoDup(r)
    ensures forall t :: t in r <==> exists p :: p in posts && IsVisible(p) && t in p.tags
    ensures IsSubseq(r, FlatTags(Filter(posts, IsVisible)))
    ensures var flat := FlatTags(Filter(posts, IsVisible));
      forall i, j :: 0 <= i < j < |r| ==> FirstIndex(flat, r[i]) < FirstIndex(flat, r[j])
  {
    FilterFacts(posts, IsVisible);
    Uniq(FlatTags(Filter(posts, IsVisible)))
  }

  /**
   * What `extractTags` evidently means to return: the extracted tags in the
   * order of `sortByAlphabetAndChinese`.
   */
  function SortedTags(posts: seq<Post>, ops: TextOps): (r: seq<string>)
    ensures NoDup(r)
    ensures forall t :: t in r <==> exists p :: p in posts && IsVisible(p) && t in p.tags
    ensures forall i, j :: 0 <= i < j < |r| && HasChinese(r[i]) ==> HasChinese(r[j])
    ensures forall i, j :: 0 <= i < j < |r| && NoChinese(r[j]) ==> LexLe(ops.lower(r[i]), ops.lower(r[j]))
    ensures forall i, j :: 0 <= i < j < |r| && HasChinese(r[i]) ==> LexLe(ops.pinyin(r[i]), ops.pinyin(r[j]))
  {
    var tags := ExtractTags(posts);
    SortByAlphabetAndChineseOrder(tags, ops);
    var r := SortByAlphabetAndChinese(tags, ops);
    PermutationNoDup(tags, r);
    assert forall t :: t in r <==> t in tags by {
      forall t ensures t in r <==> t in tags {
        assert t in r <==> t in multiset(r);
        assert t in tags <==> t in multiset(tags);
      }
    }
    r
  }

  /**
   * The sort call at the end of `extractTags` passes the list-sorting
   * function as a pairwise comparator, which leaves the list in first-occurrence
   * order: a post tagged `苹果` then `zebra` yields a Chinese tag before a
   * non-Chinese one, which `sortByAlphabetAndChinese` never does.
   */
  lemma ExtractTagsUnsorted()
    ensures var r := ExtractTags([Post("1", "Site", ["苹果", "zebra"], "s.com", None)]);
      !(forall i, j :: 0 <= i < j < |r| && HasChinese(r[i]) ==> HasChinese(r[j]))
  {
    var tags := ["苹果", "zebra"];
    ExtractTagsOfOne(Post("1", "Site", tags, "s.com", None));
    assert IsChineseChar(tags[0][0]);
    BelowChineseRange(tags[1]);
  }

  /** A single visible post with distinct tags yields exactly its tags, in its order. */
  lemma ExtractTagsOfOne(p: Post)
    requires IsVisible(p) && NoDup(p.tags)
    ensures ExtractTags([p]) == p.tags
  {
    assert [p][..0] == [];
    assert Filter([p], IsVisible) == [p];
    assert FlatTags([p]) == p.tags;
  }

  /** A tag whose characters all lie below U+4E00, such as `zebra` or `123`, has no Chinese character. */
  lemma {:induction false} BelowChineseRange(t: string)
    requires forall i :: 0 <= i < |t| ==> t[i] < '\U{4E00}'
    ensures NoChinese(t)
  {
    if |t| != 0 {
      BelowChineseRange(t[1..]);
    }
  }

  /** Every tag of `tags` is among the post's tags (`tags.every(tag => post.tags.includes(tag))`). */
  predicate HasAllTags(p: Post, tags: seq<string>) {
    forall t :: t in tags ==> t in p.tags
  }

  function HasAllOf(tags: seq<string>): Post -> bool {
    p => HasAllTags(p, tags)
  }

  /**
   * `filterPostsByTags`: exactly the posts carrying every selected tag, each
   * occurrence of them, in input order; no selected tag keeps every post.
   */
  function FilterPostsByTags(posts: seq<Post>, tags: seq<string>): (r: seq<Post>)
    ensures IsSubseq(r, posts)
    ensures forall p :: p in r <==> p in posts && HasAllTags(p, tags)
    ensures forall p :: multiset(r)[p] == if HasAllTags(p, tags) then multiset(posts)[p] else 0
    ensures tags == [] ==> r == posts
  {
    FilterFacts(posts, HasAllOf(tags));
    if tags == [] then
      FilterAll(posts, HasAllOf(tags));
      Filter(posts, HasAllOf(tags))
    else
      Filter(posts, HasAllOf(tags))
  }

  /** Selecting more tags narrows the result to a subsequence of the previous one. */
  lemma FilterPostsByTagsNarrows(posts: seq<Post>, tags: seq<string>, more: seq<string>)
    requires forall t :: t in tags ==> t in more
    ensures IsSubseq(FilterPostsByTags(posts, more), FilterPostsByTags(posts, tags))
  {
    FilterMonotone(posts, HasAllOf(more), HasAllOf(tags));
  }

  /** `q` occurs in `s`, as a plain statement about positions. */
  ghost predicate IsSubstring(q: string, s: string) {
    exists i :: OccursAt(s, q, i)
  }

  /**
   * The post mentions the lower-cased query `q`: in its lower-cased name,
   * URL or one of its tags, or in the lower-cased pinyin of its name or of
   * one of its tags. The post's `state` plays no part.
   */
  ghost predicate Mentions(p: Post, q: string, ops: TextOps) {
    || IsSubstring(q, ops.lower(p.name))
    || IsSubstring(q, ops.lower(p.web))
    || (exists t :: t in p.tags && IsSubstring(q, ops.lower(t)))
    || IsSubstring(q, ops.lower(ops.pinyin(p.name)))
    || (exists t :: t in p.tags && IsSubstring(q, ops.lower(ops.pinyin(t))))
  }

  /** The test `filterPostsBySearch` applies to one post, with `includes`. */
  predicate Matches(p: Post, q: string, ops: TextOps) {
    || Includes(ops.lower(p.name), q)
    || Includes(ops.lower(p.web), q)
    || (exists t :: t in p.tags && Includes(ops.lower(t), q))
    || Includes(ops.lower(ops.pinyin(p.name)), q)
    || (exists t :: t in p.tags && Includes(ops.lower(ops.pinyin(t)), q))
  }

  function Matching(q: string, ops: TextOps): Post -> bool {
    p => Matches(p, q, ops)
  }

  /** The `includes` tests decide exactly whether the post mentions the query. */
  lemma MatchesMentions(p: Post, q: string, ops: TextOps)
    ensures Matching(q, ops)(p) <==> Mentions(p, q, ops)
  {
    assert (exists t :: t in p.tags && Includes(ops.lower(t), q))
      <==> (exists t :: t in p.tags && IsSubstring(q, ops.lower(t)));
    assert (exists t :: t in p.tags && Includes(ops.lower(ops.pinyin(t)), q))
      <==> (exists t :: t in p.tags && IsSubstring(q, ops.lower(ops.pinyin(t))));
  }

  /**
   * `filterPostsBySearch`: the query `隐藏` returns the posts unchanged;
   * any other query keeps exactly the posts that mention its lower-cased
   * form, every occurrence of them, in input order, hidden or not.
   */
  function FilterPostsBySearch(posts: seq<Post>, query: string, ops: TextOps): (r: seq<Post>)
    ensures query == Hidden ==> r == posts
    ensures query != Hidden ==> IsSubseq(r, posts)
    ensures query != Hidden ==> forall p :: p in r <==> p in posts && Mentions(p, ops.lower(query), ops)
    ensures query != Hidden ==>
      forall p :: multiset(r)[p] == if Mentions(p, ops.lower(query), ops) then multiset(posts)[p] else 0
  {
    if query == Hidden then posts
    else
      var q := ops.lower(query);
      FilterFacts(posts, Matching(q, ops));
      assert forall p :: Matching(q, ops)(p) <==> Mentions(p, q, ops) by {
        forall p ensures Matching(q, ops)(p) <==> Mentions(p, q, ops) {
          MatchesMentions(p, q, ops);
        }
      }
      Filter(posts, Matching(q, ops))
  }

  /** An empty query keeps every post, since every string includes the empty one. */
  lemma EmptyQueryKeepsAll(posts: seq<Post>, ops: TextOps)
    requires ops.lower("") == ""
    ensures FilterPostsBySearch(posts, "", ops) == posts
  {
    forall p | p in posts ensures Matching("", ops)(p) {
      assert Includes(ops.lower(p.name), "");
    }
    FilterAll(posts, Matching("", ops));
  }
}
