/** Slugs and key spaces together: fresh slugs own nothing yet, and what the database
    writes under them leaves the slug bookkeeping as it was. */
module Opening {
  import opened ByteStrings
  import opened Comparator
  import opened Keys
  import opened RocksDB
  import opened History
  import opened Slugs

  /** The slug a document or index key belongs to. */
  function KeySlug(k: Bytes): (slug: nat)
    requires WellFormed(k) && !IsName(k)
    ensures IsUint32(slug)
  {
    StringToShort(k[1..SluggedLength])
  }

  /** Every document and index key belongs to a slug granted so far. */
  ghost predicate Owned(s: Store, max: nat) {
    AllWellFormed(s.Keys) && forall k | k in s && !IsName(k) :: KeySlug(k) <= max
  }

  function SpacesOf(document: Slug, primary: Slug, secondary: Slug): Spaces {
    Spaces(IndexPrefix(primary), IndexPrefix(secondary), DocumentPrefix(document))
  }

  lemma SlugOfPrefix(slug: Slug, k: Bytes)
    requires WellFormed(k) && (IndexPrefix(slug) <= k || DocumentPrefix(slug) <= k)
    ensures !IsName(k) && KeySlug(k) == slug
  {
    ShortStrings(slug, slug);
    var s := ShortToString(slug);
    hide StringToShort, ShortToString;
    assert IndexPrefix(slug)[1..] == s && DocumentPrefix(slug)[1..] == s;
    assert k[1..SluggedLength] == s;
  }

  /** Slugs above every slug in use have empty key spaces. */
  lemma FreshSpacesAreForeign(s: Store, max: nat, document: Slug, primary: Slug, secondary: Slug)
    requires Owned(s, max) && document > max && primary > max && secondary > max
    ensures Foreign(SpacesOf(document, primary, secondary), s)
  {
    hide KeySlug, WellFormed, IndexPrefix, DocumentPrefix;
    forall k | k in s ensures !(IndexPrefix(primary) <= k) && !(IndexPrefix(secondary) <= k) && !(DocumentPrefix(document) <= k) {
      if IndexPrefix(primary) <= k { SlugOfPrefix(primary, k); }
      if IndexPrefix(secondary) <= k { SlugOfPrefix(secondary, k); }
      if DocumentPrefix(document) <= k { SlugOfPrefix(document, k); }
    }
  }

  /** A key the database wrote is no name and belongs to one of its three slugs. */
  lemma WrittenKey(view: Store, document: Slug, primary: Slug, secondary: Slug, others: Store, log: Log, k: Bytes)
    requires Represents(view, SpacesOf(document, primary, secondary), others, log) && k in view
    ensures WellFormed(k)
    ensures k in Image(SpacesOf(document, primary, secondary), log) ==> !IsName(k) && KeySlug(k) in {document, primary, secondary}
  {
    var sp := SpacesOf(document, primary, secondary);
    RepresentsWellFormed(view, sp, others, log);
    hide KeySlug, WellFormed, IndexPrefix, DocumentPrefix, Image, Cells;
    if k in Image(sp, log) {
      ImageKeys(sp, log, k);
      var e :| e in log && k in Cells(sp, e);
      SpaceOfKey(sp, e, k);
      PrefixOf(k[..SluggedLength], k);
      if IndexPrefix(primary) <= k { SlugOfPrefix(primary, k); }
      if IndexPrefix(secondary) <= k { SlugOfPrefix(secondary, k); }
      if DocumentPrefix(document) <= k { SlugOfPrefix(document, k); }
    }
  }

  lemma SameNames(view: Store, others: Store, max: nat)
    requires SlugStore(others) && Bounded(others, max) && Distinct(others) && AllWellFormed(view.Keys)
    requires forall k | IsName(k) :: k in view <==> k in others
    requires forall k | IsName(k) && k in view :: view[k] == others[k]
    ensures SlugStore(view) && Bounded(view, max) && Distinct(view)
  {
    hide SlugOf, WellFormed;
  }

  lemma ViewOf(view: Store, sp: Spaces, others: Store, log: Log)
    requires Represents(view, sp, others, log)
    ensures view == others + Image(sp, log)
  {
  }

  /** Whatever the database does under its three slugs, the stored names stay as they
      were, bounded and distinct, and all keys still belong to granted slugs: the store
      can be opened again and further slugs granted. */
  lemma SlugsSurvive(view: Store, document: Slug, primary: Slug, secondary: Slug, others: Store, log: Log, max: nat)
    requires Represents(view, SpacesOf(document, primary, secondary), others, log)
    requires SlugStore(others) && Bounded(others, max) && Distinct(others) && Owned(others, max)
    requires document <= max && primary <= max && secondary <= max
    ensures forall k | IsName(k) :: k in view <==> k in others
    ensures forall k | IsName(k) && k in view :: view[k] == others[k]
    ensures SlugStore(view) && Bounded(view, max) && Distinct(view) && Owned(view, max)
  {
    hide *;
    var image := Image(SpacesOf(document, primary, secondary), log);
    ViewOf(view, SpacesOf(document, primary, secondary), others, log);
    forall k | k in view
      ensures WellFormed(k) && (k in image ==> !IsName(k) && KeySlug(k) in {document, primary, secondary})
    {
      WrittenKey(view, document, primary, secondary, others, log, k);
    }
    MakeOwned(view, others, image, max);
    SameNames(view, others, max);
  }

  lemma MakeOwned(view: Store, others: Store, image: Store, max: nat)
    requires view == others + image && Owned(others, max) && forall k | k in view :: WellFormed(k)
    requires forall k | k in image :: !IsName(k) && KeySlug(k) <= max
    ensures Owned(view, max) && AllWellFormed(view.Keys)
  {
    hide WellFormed, KeySlug;
  }
}
