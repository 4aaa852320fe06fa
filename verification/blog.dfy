/** The blog section: the post cards' delay schedule and ref slots, the
    "view all articles" wrapper's slot write, and the observe/unobserve
    effect over the slots. */
module Blog {
  import opened Collections
  import Reveal

  /** A post's identity and category (title, excerpt, images and author are
      presentation only). */
  datatype Post = Post(id: nat, category: string)

  const BlogPosts: seq<Post> := [
    Post(1, "Web Development"),
    Post(2, "Security"),
    Post(3, "Network Engineering")
  ]

  /** The cards are keyed by `post.id`, and the site's ids are distinct. */
  lemma SitePostKeysDistinct()
    ensures forall i, j :: 0 <= i < j < |BlogPosts| ==> BlogPosts[i].id != BlogPosts[j].id
  {
  }

  /** Card `index`: `transitionDelay: 300 + index * 100` ms. */
  function PostDelay(index: nat): (delayMs: nat)
    ensures delayMs >= 300
  {
    Reveal.Stagger(300, 100, index)
  }

  /** Cards further along the grid start later, 100 ms per card, and a delay
      identifies its card. */
  lemma PostDelaysIncrease(i: nat, j: nat)
    ensures i < j ==> PostDelay(i) < PostDelay(j) && PostDelay(j) - PostDelay(i) == 100 * (j - i)
    ensures Reveal.StaggerIndex(300, 100, PostDelay(i)) == i
  {
    if i < j {
      Reveal.StaggerIncreasing(300, 100, i, j);
    }
    Reveal.StaggerIndexInverts(300, 100, i);
  }

  // ---------------------------------------------------------------------
  // Ref slots: card `i` writes `blogItemRefs.current[i]`, then the wrapper
  // writes `blogItemRefs.current[blogItemRefs.current.length - 1]`.

  datatype BlogElement = PostCard(index: nat) | ViewMore

  function PostCards(n: nat): (cs: seq<BlogElement>)
    ensures |cs| == n && forall k :: 0 <= k < n ==> cs[k] == PostCard(k)
  {
    seq(n, (k: int) requires 0 <= k => PostCard(k))
  }

  /** The slots after the `n` cards' callbacks ran. */
  function SlotsAfterPosts(n: nat): seq<Option<BlogElement>> {
    Reveal.WriteRun([], 0, PostCards(n))
  }

  /** Card `i` sits in slot `i`, with no hole. */
  lemma SlotsAfterPostsLayout(n: nat)
    ensures |SlotsAfterPosts(n)| == n
    ensures forall k :: 0 <= k < n ==> SlotsAfterPosts(n)[k] == Some(PostCard(k))
  {
    var empty: seq<Option<BlogElement>> := [];
    Reveal.WriteRunAppends(empty, PostCards(n));
    forall k | 0 <= k < n
      ensures SlotsAfterPosts(n)[k] == Some(PostCard(k))
    {
      assert SlotsAfterPosts(n)[|empty| + k] == Some(PostCards(n)[k]);
    }
  }

  /** The wrapper's write as the section makes it: at `length - 1`. With at
      least one card it takes the last card's slot, so that card is no longer
      held and never observed; with no card the index is -1, which sets a
      property outside the array, so the wrapper itself is never observed. */
  lemma ViewMoreDisplacesLastPost(n: nat)
    ensures var slots := Reveal.WriteLast(SlotsAfterPosts(n), ViewMore);
            (n > 0 ==> |slots| == n && slots[n - 1] == Some(ViewMore) && PostCard(n - 1) !in Reveal.Present(slots))
            && (n == 0 ==> slots == [] && ViewMore !in Reveal.Present(slots))
  {
    SlotsAfterPostsLayout(n);
    var before := SlotsAfterPosts(n);
    var slots := Reveal.WriteLast(before, ViewMore);
    if n > 0 {
      forall k | 0 <= k < n
        ensures slots[k] != Some(PostCard(n - 1))
      {
        if k < n - 1 {
          assert slots[k] == before[..n - 1][k] == before[k];
        }
      }
    }
  }

  /** The slots as written: the wrapper's write lands at `length - 1`. */
  function RenderedSlots(n: nat): seq<Option<BlogElement>> {
    Reveal.WriteLast(SlotsAfterPosts(n), ViewMore)
  }

  /** The wrapper's write at `length` instead: it appends after the cards,
      so every card keeps its slot. */
  function SlotsWithViewMoreAppended(n: nat): seq<Option<BlogElement>> {
    Reveal.WriteNext(SlotsAfterPosts(n), ViewMore)
  }

  /** Appending keeps every card in its slot and puts the wrapper after
      them. */
  lemma AppendedSlotsKeepAllPosts(n: nat)
    ensures |SlotsWithViewMoreAppended(n)| == n + 1
    ensures forall k :: 0 <= k < n ==> SlotsWithViewMoreAppended(n)[k] == Some(PostCard(k))
    ensures SlotsWithViewMoreAppended(n)[n] == Some(ViewMore)
    ensures forall e :: e in Reveal.Present(SlotsWithViewMoreAppended(n)) <==> (e.PostCard? ==> e.index < n)
  {
    SlotsAfterPostsLayout(n);
    var slots := SlotsWithViewMoreAppended(n);
    forall e: BlogElement | e.PostCard? ==> e.index < n
      ensures Some(e) in slots
    {
      if e.PostCard? {
        assert slots[e.index] == Some(e);
      } else {
        assert slots[n] == Some(e);
      }
    }
  }

  /** The effect as written observes the element `sectionRef` holds and
      the slots' elements: the wrapper and every card but the last, whose
      slot the wrapper took. With no card, neither the wrapper nor a card is
      observed. Its cleanup, reading the same refs, unobserves them all. */
  lemma EffectCleanupUndoesSetup(headerBlockWritesLast: bool, n: nat)
    ensures var holder := Reveal.SectionRefHolder<BlogElement>(headerBlockWritesLast);
            var watching := Reveal.Setup(Some(holder), Reveal.Lift(RenderedSlots(n)));
            (forall t :: t in watching <==>
               t == holder || (t.Slotted? && n > 0 && (t.el == ViewMore || (t.el.PostCard? && t.el.index < n - 1))))
            && (n > 0 ==> Reveal.Slotted(PostCard(n - 1)) !in watching)
            && (Reveal.HeaderBlock in watching <==> headerBlockWritesLast)
            && Reveal.Cleanup(watching, Some(holder), Reveal.Lift(RenderedSlots(n))) == {}
  {
    AsWrittenSlotsHold(n);
    Reveal.EffectWatches(Reveal.SectionRefHolder<BlogElement>(headerBlockWritesLast), RenderedSlots(n));
  }

  /** The elements the slots hold once the wrapper has written at
      `length - 1`. */
  lemma AsWrittenSlotsHold(n: nat)
    ensures forall e :: e in Reveal.Present(RenderedSlots(n)) <==>
              n > 0 && (e == ViewMore || (e.PostCard? && e.index < n - 1))
  {
    SlotsAfterPostsLayout(n);
    ViewMoreDisplacesLastPost(n);
    var before := SlotsAfterPosts(n);
    var slots := RenderedSlots(n);
    forall k | 0 <= k < n - 1
      ensures slots[k] == before[k]
    {
      assert slots[k] == before[..n - 1][k];
    }
    forall e | e in Reveal.Present(slots)
      ensures n > 0 && (e == ViewMore || (e.PostCard? && e.index < n - 1))
    {
      var k :| 0 <= k < |slots| && slots[k] == Some(e);
    }
    forall e | n > 0 && (e == ViewMore || (e.PostCard? && e.index < n - 1))
      ensures Some(e) in slots
    {
      if e == ViewMore {
        assert slots[n - 1] == Some(e);
      } else {
        assert slots[e.index] == Some(e);
      }
    }
  }

  /** With the wrapper appended, the effect observes the element
      `sectionRef` holds, every card and the wrapper; cleanup unobserves them
      all. */
  lemma AppendedEffectWatchesAllPosts(headerBlockWritesLast: bool, n: nat)
    ensures var holder := Reveal.SectionRefHolder<BlogElement>(headerBlockWritesLast);
            var watching := Reveal.Setup(Some(holder), Reveal.Lift(SlotsWithViewMoreAppended(n)));
            (forall t :: t in watching <==> t == holder || (t.Slotted? && (t.el.PostCard? ==> t.el.index < n)))
            && Reveal.Cleanup(watching, Some(holder), Reveal.Lift(SlotsWithViewMoreAppended(n))) == {}
  {
    AppendedSlotsKeepAllPosts(n);
    Reveal.EffectWatches(Reveal.SectionRefHolder<BlogElement>(headerBlockWritesLast), SlotsWithViewMoreAppended(n));
  }
}
