/** The photo service: list queries filtered by who may see what, the single-photo read guard,
    and the guarded mutations of photos, shares and likes. */
module PhotoService {
  import opened Outcomes
  import opened Photos
  import opened Sequences
  import opened Repositories

  // ---------------------------------------------------------------------------------------
  // Visibility in list queries
  // ---------------------------------------------------------------------------------------

  /** The rule every active list query applies: the photo is active, and the viewer is an
      admin, or the photo is public, or the viewer owns it, or it is shared with the viewer. */
  predicate ActiveVisibleTo(viewer: User, shares: set<Share>, p: PhotoRecord)
  {
    p.state == ACTIVE
    && (viewer.role == ADMIN || p.visibility == PUBLIC || p.user == viewer.id
        || SharedWith(shares, p.id, viewer.id))
  }

  /** The where-clause of the finder pair each active list query picks from: for an admin
      `…AndState(ACTIVE)`, otherwise
      `…VisibilityAndState…OrUserAndState…OrShares_UserAndState…` with PUBLIC, the viewer, the
      viewer and ACTIVE. `scope` holds the query's own conditions (a category, a tag, a date),
      which the finder names repeat in every `Or` branch. */
  function ActiveWhere(viewer: User, scope: seq<Atom>): Where
  {
    if viewer.role == ADMIN then [scope + [StateIs(ACTIVE)]]
    else [scope + [VisibilityIs(PUBLIC), StateIs(ACTIVE)],
          scope + [UserIs(viewer.id), StateIs(ACTIVE)],
          scope + [SharesUserIs(viewer.id), StateIs(ACTIVE)]]
  }

  lemma ActiveWhereMatch(viewer: User, scope: seq<Atom>, shares: set<Share>, p: PhotoRecord)
    ensures Satisfies(ActiveWhere(viewer, scope), shares, p) <==>
                AllHold(scope, shares, p) && ActiveVisibleTo(viewer, shares, p)
  {
    var w := ActiveWhere(viewer, scope);
    var ps := [VisibilityIs(PUBLIC), StateIs(ACTIVE)];
    var us := [UserIs(viewer.id), StateIs(ACTIVE)];
    var ss := [SharesUserIs(viewer.id), StateIs(ACTIVE)];
    var st := [StateIs(ACTIVE)];
    AllHoldConcat(scope, ps, shares, p);
    AllHoldConcat(scope, us, shares, p);
    AllHoldConcat(scope, ss, shares, p);
    AllHoldConcat(scope, st, shares, p);
    assert AllHold(ps, shares, p) <==> p.visibility == PUBLIC && p.state == ACTIVE by {
      assert ps[0] == VisibilityIs(PUBLIC) && ps[1] == StateIs(ACTIVE);
    }
    assert AllHold(us, shares, p) <==> p.user == viewer.id && p.state == ACTIVE by {
      assert us[0] == UserIs(viewer.id) && us[1] == StateIs(ACTIVE);
    }
    assert AllHold(ss, shares, p) <==> SharedWith(shares, p.id, viewer.id) && p.state == ACTIVE by {
      assert ss[0] == SharesUserIs(viewer.id) && ss[1] == StateIs(ACTIVE);
    }
    assert AllHold(st, shares, p) <==> p.state == ACTIVE by {
      assert st[0] == StateIs(ACTIVE);
    }
    if viewer.role == ADMIN {
      assert w == [scope + st];
      assert Satisfies(w, shares, p) <==> AllHold(w[0], shares, p);
    } else {
      assert w == [scope + ps, scope + us, scope + ss];
      assert Satisfies(w, shares, p) <==>
                 AllHold(w[0], shares, p) || AllHold(w[1], shares, p) || AllHold(w[2], shares, p);
    }
  }

  /** The active-query where-clause, over a whole table, selects exactly the rows any filter
      `keep` selects that accepts the visible rows in scope. */
  lemma ActiveWhereSelects(photos: seq<PhotoRecord>, shares: set<Share>, viewer: User,
                           scope: seq<Atom>, keep: PhotoRecord -> bool)
    requires forall p :: p in photos ==>
               (keep(p) <==> AllHold(scope, shares, p) && ActiveVisibleTo(viewer, shares, p))
    ensures FindAll(photos, shares, ActiveWhere(viewer, scope)) == Filter(photos, keep)
  {
    forall p | p in photos
      ensures Satisfies(ActiveWhere(viewer, scope), shares, p) <==> keep(p)
    {
      ActiveWhereMatch(viewer, scope, shares, p);
    }
    FindAllAgrees(photos, shares, ActiveWhere(viewer, scope), keep);
  }

  // ---------------------------------------------------------------------------------------
  // List queries
  // ---------------------------------------------------------------------------------------

  /** `getAllActive`: a page of the active photos the viewer may see. */
  function GetAllActive(photos: seq<PhotoRecord>, shares: set<Share>, viewer: User,
                        pg: Pageable): (r: seq<PhotoRecord>)
    ensures r == Page(Filter(photos, (p: PhotoRecord) => ActiveVisibleTo(viewer, shares, p)), pg)
    ensures forall p :: p in r ==> p in photos && ActiveVisibleTo(viewer, shares, p)
  {
    ActiveWhereSelects(photos, shares, viewer, [], (p: PhotoRecord) => ActiveVisibleTo(viewer, shares, p));
    Page(FindAll(photos, shares, ActiveWhere(viewer, [])), pg)
  }

  /** The like count of a photo, the key the like-ordered queries sort by. */
  function ByLikes(likes: set<Like>): PhotoRecord -> int
  {
    (p: PhotoRecord) => LikeCount(likes, p.id)
  }

  /** Copies a fetched page into an array and sorts it in place, most liked first. */
  method SortPageByLikes(page: seq<PhotoRecord>, likes: set<Like>) returns (r: seq<PhotoRecord>)
    ensures r == SortByKeyDesc(page, ByLikes(likes))
    ensures SortedDesc(r, ByLikes(likes))
    ensures multiset(r) == multiset(page)
    ensures forall k :: WithKey(r, ByLikes(likes), k) == WithKey(page, ByLikes(likes), k)
  {
    var a := new PhotoRecord[|page|](i requires 0 <= i < |page| => page[i]);
    assert a[..] == page;
    SortInPlace(a, ByLikes(likes));
    r := a[..];
    SortByKeyDescIsStableSort(page, ByLikes(likes));
  }

  /** `getAllActiveOrderedByLikes`: the `getAllActive` page, reordered by like count, largest
      first; photos with equal counts keep their page order. */
  method GetAllActiveOrderedByLikes(photos: seq<PhotoRecord>, shares: set<Share>,
                                    likes: set<Like>, viewer: User, pg: Pageable)
    returns (r: seq<PhotoRecord>)
    ensures SortedDesc(r, ByLikes(likes))
    ensures multiset(r) == multiset(GetAllActive(photos, shares, viewer, pg))
    ensures forall k :: WithKey(r, ByLikes(likes), k)
                        == WithKey(GetAllActive(photos, shares, viewer, pg), ByLikes(likes), k)
    ensures forall p :: p in r ==> p in photos && ActiveVisibleTo(viewer, shares, p)
  {
    var page := GetAllActive(photos, shares, viewer, pg);
    r := SortPageByLikes(page, likes);
    forall p | p in r ensures p in page {
      assert p in multiset(r);
    }
  }

  /** The page `getAllActiveNewerThanOrderedByLikes` fetches: like `getAllActive`, with every
      `Or` branch also requiring `CreationDateGreaterThan(date)`. */
  function ActiveNewerThanPage(photos: seq<PhotoRecord>, shares: set<Share>, viewer: User,
                               date: Date, pg: Pageable): (r: seq<PhotoRecord>)
    ensures r == Page(Filter(photos, (p: PhotoRecord) => ActiveVisibleTo(viewer, shares, p) && p.creationDate > date), pg)
  {
    AllHoldOne(CreationDateGreaterThan(date), shares);
    ActiveWhereSelects(photos, shares, viewer, [CreationDateGreaterThan(date)],
                       (p: PhotoRecord) => ActiveVisibleTo(viewer, shares, p) && p.creationDate > date);
    Page(FindAll(photos, shares, ActiveWhere(viewer, [CreationDateGreaterThan(date)])), pg)
  }

  /** `getAllActiveNewerThanOrderedByLikes`: visible active photos created strictly after
      `date`, the fetched page reordered by like count, largest first, stably. */
  method GetAllActiveNewerThanOrderedByLikes(photos: seq<PhotoRecord>, shares: set<Share>,
                                             likes: set<Like>, viewer: User, date: Date,
                                             pg: Pageable)
    returns (r: seq<PhotoRecord>)
    ensures SortedDesc(r, ByLikes(likes))
    ensures multiset(r) == multiset(ActiveNewerThanPage(photos, shares, viewer, date, pg))
    ensures forall k :: WithKey(r, ByLikes(likes), k)
                        == WithKey(ActiveNewerThanPage(photos, shares, viewer, date, pg), ByLikes(likes), k)
    ensures forall p :: p in r ==> p in photos && ActiveVisibleTo(viewer, shares, p) && p.creationDate > date
  {
    var page := ActiveNewerThanPage(photos, shares, viewer, date, pg);
    r := SortPageByLikes(page, likes);
    FilterMembership(photos, (p: PhotoRecord) => ActiveVisibleTo(viewer, shares, p) && p.creationDate > date);
    forall p | p in r ensures p in page {
      assert p in multiset(r);
    }
  }

  /** `getAllActiveByCategory`: a page of the visible active photos filed under `category`. */
  function GetAllActiveByCategory(photos: seq<PhotoRecord>, shares: set<Share>, viewer: User,
                                  category: Category, pg: Pageable): (r: seq<PhotoRecord>)
    ensures r == Page(Filter(photos, (p: PhotoRecord) => ActiveVisibleTo(viewer, shares, p) && category in p.categories), pg)
    ensures forall p :: p in r ==> p in photos && ActiveVisibleTo(viewer, shares, p) && category in p.categories
  {
    AllHoldOne(CategoriesContains(category), shares);
    ActiveWhereSelects(photos, shares, viewer, [CategoriesContains(category)],
                       (p: PhotoRecord) => ActiveVisibleTo(viewer, shares, p) && category in p.categories);
    Page(FindAll(photos, shares, ActiveWhere(viewer, [CategoriesContains(category)])), pg)
  }

  /** At least one of `categories` is attached to `p`. */
  predicate InAnyOf(categories: seq<Category>, p: PhotoRecord)
  {
    exists c :: c in categories && c in p.categories
  }

  /** Every one of `categories` is attached to `p` (`containsAll`). */
  predicate InAllOf(categories: seq<Category>, p: PhotoRecord)
  {
    forall c :: c in categories ==> c in p.categories
  }

  /** `getAllActiveMatchingAnyOfCategories`: a page of the distinct visible active photos
      filed under at least one of `categories`. */
  function GetAllActiveMatchingAnyOfCategories(photos: seq<PhotoRecord>, shares: set<Share>,
                                               viewer: User, categories: seq<Category>,
                                               pg: Pageable): (r: seq<PhotoRecord>)
    ensures r == Page(Filter(photos, (p: PhotoRecord) => ActiveVisibleTo(viewer, shares, p) && InAnyOf(categories, p)), pg)
    ensures forall p :: p in r ==> p in photos && ActiveVisibleTo(viewer, shares, p) && InAnyOf(categories, p)
  {
    AllHoldOne(CategoriesIn(categories), shares);
    ActiveWhereSelects(photos, shares, viewer, [CategoriesIn(categories)],
                       (p: PhotoRecord) => ActiveVisibleTo(viewer, shares, p) && InAnyOf(categories, p));
    Page(FindAll(photos, shares, ActiveWhere(viewer, [CategoriesIn(categories)])), pg)
  }

  /** `getAllActiveMatchingAllOfCategories`: the any-of page, then only the photos that carry
      every requested category. The refinement runs after paging, so the result can be shorter
      than the page size even when more matching photos exist. */
  function GetAllActiveMatchingAllOfCategories(photos: seq<PhotoRecord>, shares: set<Share>,
                                               viewer: User, categories: seq<Category>,
                                               pg: Pageable): (r: seq<PhotoRecord>)
    ensures SubseqOf(r, GetAllActiveMatchingAnyOfCategories(photos, shares, viewer, categories, pg))
    ensures forall p :: p in r <==>
              p in GetAllActiveMatchingAnyOfCategories(photos, shares, viewer, categories, pg)
              && InAllOf(categories, p)
    ensures forall p :: p in r ==> ActiveVisibleTo(viewer, shares, p)
  {
    var page := GetAllActiveMatchingAnyOfCategories(photos, shares, viewer, categories, pg);
    FilterIsSubseq(page, (p: PhotoRecord) => InAllOf(categories, p));
    FilterMembership(page, (p: PhotoRecord) => InAllOf(categories, p));
    Filter(page, (p: PhotoRecord) => InAllOf(categories, p))
  }

  /** `getAllActiveByTag`: a page of the visible active photos carrying `tag`. */
  function GetAllActiveByTag(photos: seq<PhotoRecord>, shares: set<Share>, viewer: User,
                             tag: Tag, pg: Pageable): (r: seq<PhotoRecord>)
    ensures r == Page(Filter(photos, (p: PhotoRecord) => ActiveVisibleTo(viewer, shares, p) && tag in p.tags), pg)
    ensures forall p :: p in r ==> p in photos && ActiveVisibleTo(viewer, shares, p) && tag in p.tags
  {
    AllHoldOne(TagsContains(tag), shares);
    ActiveWhereSelects(photos, shares, viewer, [TagsContains(tag)],
                       (p: PhotoRecord) => ActiveVisibleTo(viewer, shares, p) && tag in p.tags);
    Page(FindAll(photos, shares, ActiveWhere(viewer, [TagsContains(tag)])), pg)
  }

  /** The where-clause of the by-user finders: `findAllByUserAndState(user, ACTIVE)` when the
      viewer is that user or an admin, otherwise
      `…ByUserAndVisibilityAndStateOrUserAndShares_UserAndState(user, PUBLIC, ACTIVE, user,
      viewer, ACTIVE)`. */
  function ByUserWhere(viewer: User, user: UserId): Where
  {
    if user == viewer.id || viewer.role == ADMIN then [[UserIs(user), StateIs(ACTIVE)]]
    else [[UserIs(user), VisibilityIs(PUBLIC), StateIs(ACTIVE)],
          [UserIs(user), SharesUserIs(viewer.id), StateIs(ACTIVE)]]
  }

  lemma ByUserWhereSelects(photos: seq<PhotoRecord>, shares: set<Share>, viewer: User, user: UserId)
    ensures FindAll(photos, shares, ByUserWhere(viewer, user))
            == Filter(photos, (p: PhotoRecord) => p.user == user && ActiveVisibleTo(viewer, shares, p))
  {
    var w := ByUserWhere(viewer, user);
    forall p | p in photos
      ensures Satisfies(w, shares, p) <==> p.user == user && ActiveVisibleTo(viewer, shares, p)
    {
      if user == viewer.id || viewer.role == ADMIN {
        assert w[0][0] == UserIs(user) && w[0][1] == StateIs(ACTIVE);
        assert Satisfies(w, shares, p) <==> AllHold(w[0], shares, p);
      } else {
        assert w[0][0] == UserIs(user) && w[0][1] == VisibilityIs(PUBLIC) && w[0][2] == StateIs(ACTIVE);
        assert w[1][0] == UserIs(user) && w[1][1] == SharesUserIs(viewer.id) && w[1][2] == StateIs(ACTIVE);
        assert Satisfies(w, shares, p) <==> AllHold(w[0], shares, p) || AllHold(w[1], shares, p);
      }
    }
    FindAllAgrees(photos, shares, w, (p: PhotoRecord) => p.user == user && ActiveVisibleTo(viewer, shares, p));
  }

  /** `getAllActiveByUser(user)`: every active photo of `user` the viewer may see; to anyone but
      that user or an admin, only the public ones and the ones shared with the viewer. */
  function GetAllActiveByUser(photos: seq<PhotoRecord>, shares: set<Share>, viewer: User,
                              user: UserId): (r: seq<PhotoRecord>)
    ensures r == Filter(photos, (p: PhotoRecord) => p.user == user && ActiveVisibleTo(viewer, shares, p))
    ensures forall p :: p in r ==>
              p in photos && p.user == user && p.state == ACTIVE
              && (user == viewer.id || viewer.role == ADMIN || p.visibility == PUBLIC
                  || SharedWith(shares, p.id, viewer.id))
  {
    ByUserWhereSelects(photos, shares, viewer, user);
    FindAll(photos, shares, ByUserWhere(viewer, user))
  }

  /** `getAllActiveByUser(user, pageable)`: the same selection, one page of it. */
  function GetAllActiveByUserPage(photos: seq<PhotoRecord>, shares: set<Share>, viewer: User,
                                  user: UserId, pg: Pageable): (r: seq<PhotoRecord>)
    ensures r == Page(Filter(photos, (p: PhotoRecord) => p.user == user && ActiveVisibleTo(viewer, shares, p)), pg)
    ensures forall p :: p in r ==>
              p in photos && p.user == user && p.state == ACTIVE
              && (user == viewer.id || viewer.role == ADMIN || p.visibility == PUBLIC
                  || SharedWith(shares, p.id, viewer.id))
  {
    ByUserWhereSelects(photos, shares, viewer, user);
    Page(FindAll(photos, shares, ByUserWhere(viewer, user)), pg)
  }

  /** `getAllArchivedByUser`: for that user or an admin, a page of the user's archived photos;
      anyone else is refused outright rather than given an empty page. */
  function GetAllArchivedByUser(photos: seq<PhotoRecord>, shares: set<Share>, viewer: User,
                                user: UserId, pg: Pageable): (r: Result<seq<PhotoRecord>>)
    ensures r.Ok? <==> user == viewer.id || viewer.role == ADMIN
    ensures r.Err? ==> r.error == EntityGetDenied
    ensures r.Ok? ==> r.value == Page(Filter(photos, (p: PhotoRecord) => p.user == user && p.state == ARCHIVED), pg)
  {
    if user == viewer.id || viewer.role == ADMIN then
      var w := [[UserIs(user), StateIs(ARCHIVED)]];
      assert forall p :: p in photos ==> (Satisfies(w, shares, p) <==> p.user == user && p.state == ARCHIVED) by {
        forall p | p in photos
          ensures Satisfies(w, shares, p) <==> p.user == user && p.state == ARCHIVED
        {
          assert w[0][0] == UserIs(user) && w[0][1] == StateIs(ARCHIVED);
          assert Satisfies(w, shares, p) <==> AllHold(w[0], shares, p);
        }
      }
      FindAllAgrees(photos, shares, w, (p: PhotoRecord) => p.user == user && p.state == ARCHIVED);
      Ok(Page(FindAll(photos, shares, w), pg))
    else
      Err(EntityGetDenied)
  }

  /** An admin's active queries are exactly the active photos: visibility, ownership and
      shares play no part. */
  lemma AdminSeesAllActive(photos: seq<PhotoRecord>, shares: set<Share>, viewer: User, pg: Pageable)
    requires viewer.role == ADMIN
    ensures GetAllActive(photos, shares, viewer, pg) == Page(Filter(photos, (p: PhotoRecord) => p.state == ACTIVE), pg)
  {
    FilterCongruence(photos, (p: PhotoRecord) => ActiveVisibleTo(viewer, shares, p), (p: PhotoRecord) => p.state == ACTIVE);
  }

  /** No active list query ever returns an archived photo, whoever asks. It follows from the
      queries' own contracts. */
  lemma ActiveQueriesNeverArchived(photos: seq<PhotoRecord>, shares: set<Share>, likes: set<Like>,
                                   viewer: User, category: Category, categories: seq<Category>,
                                   tag: Tag, user: UserId, pg: Pageable, p: PhotoRecord)
    requires p.state == ARCHIVED
    ensures p !in GetAllActive(photos, shares, viewer, pg)
    ensures p !in GetAllActiveByCategory(photos, shares, viewer, category, pg)
    ensures p !in GetAllActiveMatchingAnyOfCategories(photos, shares, viewer, categories, pg)
    ensures p !in GetAllActiveMatchingAllOfCategories(photos, shares, viewer, categories, pg)
    ensures p !in GetAllActiveByTag(photos, shares, viewer, tag, pg)
    ensures p !in GetAllActiveByUser(photos, shares, viewer, user)
    ensures p !in GetAllActiveByUserPage(photos, shares, viewer, user, pg)
  {
  }

  // ---------------------------------------------------------------------------------------
  // The single-photo read guard
  // ---------------------------------------------------------------------------------------

  /** `getById`: not found when no row has the id; refused exactly when the photo is private
      and the viewer neither owns it nor is an admin; otherwise the stored photo. Shares and the
      archived state play no part. */
  function GetById(photos: seq<PhotoRecord>, viewer: User, id: PhotoId): (r: Result<PhotoRecord>)
    requires UniqueIds(photos)
    ensures r == Err(EntityNotFound) <==> forall q :: q in photos ==> q.id != id
    ensures forall p :: p in photos && p.id == id ==>
              (r == Err(EntityGetDenied) <==>
                     p.visibility == PRIVATE && p.user != viewer.id && viewer.role != ADMIN)
              && (r.Ok? <==> r == Ok(p))
    ensures r.Ok? || r == Err(EntityNotFound) || r == Err(EntityGetDenied)
  {
    match FindById(photos, id)
    case None => Err(EntityNotFound)
    case Some(p) =>
      FindByIdUnique(photos, p);
      if p.visibility == PRIVATE && p.user != viewer.id && viewer.role != ADMIN then
        Err(EntityGetDenied)
      else
        Ok(p)
  }

  /** A private photo shared with a viewer who neither owns it nor is an admin is still
      refused, and an archived public photo is still returned. It follows from the contract of
      `GetById`. */
  lemma GetByIdIgnoresSharesAndState(photos: seq<PhotoRecord>, viewer: User, p: PhotoRecord)
    requires UniqueIds(photos) && p in photos
    requires viewer.role == USER && p.user != viewer.id
    ensures p.visibility == PRIVATE ==> GetById(photos, viewer, p.id) == Err(EntityGetDenied)
    ensures p.visibility == PUBLIC ==> GetById(photos, viewer, p.id) == Ok(p)
  {
  }

  // ---------------------------------------------------------------------------------------
  // Guards of the mutations, as functions of the stored state
  // ---------------------------------------------------------------------------------------

  /** Every category is owned by `user`. */
  predicate CategoriesOwnedBy(categories: set<Category>, user: UserId)
  {
    forall c :: c in categories ==> c.user == user
  }

  /** What `update` decides before it saves: the row it would save, or the first error among
      not found, update denied, owner change denied and invalid category owner. */
  function UpdateGuard(photos: seq<PhotoRecord>, viewer: User, submitted: PhotoRecord)
    : (r: Result<PhotoRecord>)
    requires UniqueIds(photos)
    ensures r == Err(EntityNotFound) <==> forall q :: q in photos ==> q.id != submitted.id
    ensures forall p :: p in photos && p.id == submitted.id ==>
              var mayEdit := p.user == viewer.id || viewer.role == ADMIN;
              var keepsOwner := p.user == submitted.user || viewer.role == ADMIN;
              (r == Err(EntityUpdateDenied) <==> !mayEdit)
              && (r == Err(EntityOwnerChangeDenied) <==> mayEdit && !keepsOwner)
              && (r == Err(EntityOwnerInvalid) <==>
                        mayEdit && keepsOwner && !CategoriesOwnedBy(submitted.categories, viewer.id))
              && (r.Ok? <==> mayEdit && keepsOwner && CategoriesOwnedBy(submitted.categories, viewer.id))
              && (r.Ok? ==> r.value == submitted.(creationDate := p.creationDate))
  {
    match GetById(photos, viewer, submitted.id)
    case Err(e) => if e == EntityGetDenied then Err(EntityUpdateDenied) else Err(e)
    case Ok(p) =>
      if p.user != viewer.id && viewer.role != ADMIN then Err(EntityUpdateDenied)
      else if p.user != submitted.user && viewer.role != ADMIN then Err(EntityOwnerChangeDenied)
      else if !CategoriesOwnedBy(submitted.categories, viewer.id) then Err(EntityOwnerInvalid)
      else Ok(submitted.(creationDate := p.creationDate))
  }

  /** What `delete` decides: the photo to delete, or not found, or refused to anyone but the
      owner, admins included. */
  function DeleteGuard(photos: seq<PhotoRecord>, viewer: User, id: PhotoId): (r: Result<PhotoRecord>)
    requires UniqueIds(photos)
    ensures r == Err(EntityNotFound) <==> forall q :: q in photos ==> q.id != id
    ensures forall p :: p in photos && p.id == id ==>
              (r == Err(EntityDeleteDenied) <==> p.user != viewer.id) && (r.Ok? <==> r == Ok(p))
    ensures r.Ok? ==> r.value in photos && r.value.id == id && r.value.user == viewer.id
    ensures r.Ok? || r == Err(EntityNotFound) || r == Err(EntityDeleteDenied)
  {
    match GetById(photos, viewer, id)
    case Err(e) => if e == EntityGetDenied then Err(EntityDeleteDenied) else Err(e)
    case Ok(p) => if p.user != viewer.id then Err(EntityDeleteDenied) else Ok(p)
  }

  /** What `share` decides: the share to save as submitted, or not found, or refused to anyone
      but the owner (admins included), or an invalid target when the viewer names themself. */
  function ShareGuard(photos: seq<PhotoRecord>, viewer: User, id: PhotoId, share: Share)
    : (r: Result<Share>)
    requires UniqueIds(photos)
    ensures r == Err(EntityNotFound) <==> forall q :: q in photos ==> q.id != id
    ensures forall p :: p in photos && p.id == id ==>
              (r == Err(PhotoShareDenied) <==> p.user != viewer.id)
              && (r == Err(PhotoShareTargetInvalid) <==> p.user == viewer.id && share.user == viewer.id)
              && (r.Ok? <==> p.user == viewer.id && share.user != viewer.id)
    ensures r.Ok? ==> r.value == share
  {
    match GetById(photos, viewer, id)
    case Err(e) => if e == EntityGetDenied then Err(PhotoShareDenied) else Err(e)
    case Ok(p) =>
      if p.user != viewer.id then Err(PhotoShareDenied)
      else if share.user == viewer.id then Err(PhotoShareTargetInvalid)
      else Ok(share)
  }

  /** `share` checks ownership of the photo named by the path id only: an owner of that photo
      gets the submitted share accepted whatever photo the share itself names, including a photo
      of another user. */
  lemma ShareIgnoresSharePhoto(photos: seq<PhotoRecord>, viewer: User, p: PhotoRecord, q: PhotoRecord,
                               grantee: UserId)
    requires UniqueIds(photos) && p in photos && q in photos
    requires p.user == viewer.id && q.user != viewer.id && grantee != viewer.id
    ensures ShareGuard(photos, viewer, p.id, Share(0, q.id, grantee, None)) == Ok(Share(0, q.id, grantee, None))
  {
  }

  /** What `like` decides: the photo to like whenever `getById` lets the viewer read it. */
  function LikeGuard(photos: seq<PhotoRecord>, viewer: User, id: PhotoId): (r: Result<PhotoRecord>)
    requires UniqueIds(photos)
    ensures r == Err(EntityNotFound) <==> forall q :: q in photos ==> q.id != id
    ensures forall p :: p in photos && p.id == id ==>
              (r == Err(PhotoLikeDenied) <==>
                     p.visibility == PRIVATE && p.user != viewer.id && viewer.role != ADMIN)
              && (r.Ok? <==> r == Ok(p))
    ensures r.Ok? || r == Err(EntityNotFound) || r == Err(PhotoLikeDenied)
  {
    match GetById(photos, viewer, id)
    case Err(e) => if e == EntityGetDenied then Err(PhotoLikeDenied) else Err(e)
    case Ok(p) => Ok(p)
  }

  /** The likes `findByUserAndPhoto` matches. */
  function LikesBy(likes: set<Like>, user: UserId, photo: PhotoId): set<Like>
  {
    set l | l in likes && l.user == user && l.photo == photo
  }

  /** What `unlike` decides: the one like of the viewer on the photo; not found; refused when
      the viewer may not read the photo or has no like on it; and a non-unique-result failure
      when the viewer has liked it more than once. */
  ghost function UnlikeGuard(photos: seq<PhotoRecord>, likes: set<Like>, viewer: User, id: PhotoId)
    : (r: Result<Like>)
    requires UniqueIds(photos)
    ensures r == Err(EntityNotFound) <==> forall q :: q in photos ==> q.id != id
    ensures forall p :: p in photos && p.id == id ==>
              var readable := !(p.visibility == PRIVATE && p.user != viewer.id && viewer.role != ADMIN);
              (r == Err(PhotoUnlikeDenied) <==> !readable || LikesBy(likes, viewer.id, id) == {})
              && (r == Err(NonUniqueResult) <==> readable && |LikesBy(likes, viewer.id, id)| > 1)
              && (r.Ok? <==> readable && |LikesBy(likes, viewer.id, id)| == 1)
    ensures r.Ok? ==> LikesBy(likes, viewer.id, id) == {r.value}
  {
    match GetById(photos, viewer, id)
    case Err(e) => if e == EntityGetDenied then Err(PhotoUnlikeDenied) else Err(e)
    case Ok(p) =>
      var m := LikesBy(likes, viewer.id, p.id);
      if m == {} then Err(PhotoUnlikeDenied)
      else if |m| > 1 then Err(NonUniqueResult)
      else
        var l :| l in m;
        OnlyElement(m, l);
        Ok(l)
  }

  // ---------------------------------------------------------------------------------------
  // The mutations
  // ---------------------------------------------------------------------------------------

  /** The loop of `update` over the submitted categories: stops at the first one the viewer
      does not own. */
  method CheckCategoriesOwned(categories: set<Category>, user: UserId) returns (owned: bool)
    ensures owned <==> CategoriesOwnedBy(categories, user)
  {
    var rest := categories;
    while rest != {}
      invariant rest <= categories
      invariant CategoriesOwnedBy(categories - rest, user)
      decreases rest
    {
      var c :| c in rest;
      if c.user != user {
        return false;
      }
      rest := rest - {c};
    }
    return true;
  }

  /** `add`: uploads the file, builds a private, active photo owned by the viewer and saves
      it. When the save fails the uploaded binary is deleted again and the unsaved photo is
      returned. The base name, the upload path, its URL, the clock and whether the save
      fails come from collaborators and are parameters. */
  method Add(db: Store, viewer: User, baseName: string, description: string,
             uploadedPath: Path, url: string, now: Date, saveFails: bool) returns (photo: Photo)
    requires db.Valid()
    modifies db
    ensures db.Valid() && fresh(photo)
    ensures !saveFails ==>
              photo.Fields() == Snapshot(Some(old(db.nextId)), baseName, Some(now), Some(viewer.id),
                                         uploadedPath, url, description, PRIVATE, ACTIVE, {}, {}, {}, {})
              && photo.Saved()
              && db.photos == old(db.photos) + [photo.Record()]
              && db.binaries == old(db.binaries) + {uploadedPath}
              && db.nextId == old(db.nextId) + 1
    ensures saveFails ==>
              photo.Fields() == Snapshot(None, baseName, None, Some(viewer.id),
                                         uploadedPath, url, description, PRIVATE, ACTIVE, {}, {}, {}, {})
              && db.photos == old(db.photos)
              && db.binaries == old(db.binaries) + {uploadedPath} - {uploadedPath}
              && db.nextId == old(db.nextId)
    ensures db.shares == old(db.shares) && db.likes == old(db.likes) && db.users == old(db.users)
  {
    db.binaries := db.binaries + {uploadedPath};
    photo := new Photo();
    photo.SetName(baseName);
    photo.SetPath(uploadedPath);
    photo.SetUrl(url);
    photo.SetDescription(description);
    photo.SetUser(Some(viewer.id));
    if saveFails {
      db.binaries := db.binaries - {uploadedPath};
    } else {
      photo.SetId(Some(db.nextId));
      photo.SetCreationDate(Some(now));
      db.photos := db.photos + [photo.Record()];
      db.nextId := db.nextId + 1;
    }
  }

  /** `update`: on any error nothing changes; otherwise the stored row is replaced by the
      submitted photo, whose creation date column is not updatable and keeps its stored value.
      The merge returns the submitted photo itself, with the creation date it was submitted
      with, even where that differs from the one kept in the row. */
  method Update(db: Store, viewer: User, submitted: PhotoRecord) returns (r: Result<PhotoRecord>)
    requires db.Valid()
    modifies db
    ensures db.Valid()
    ensures var g := UpdateGuard(old(db.photos), viewer, submitted);
            (r.Ok? <==> g.Ok?)
            && (g.Err? ==> r == g && db.photos == old(db.photos))
            && (g.Ok? ==> r == Ok(submitted) && db.photos == ReplaceById(old(db.photos), g.value))
    ensures db.shares == old(db.shares) && db.likes == old(db.likes) && db.users == old(db.users)
    ensures db.binaries == old(db.binaries) && db.nextId == old(db.nextId)
  {
    var current := GetById(db.photos, viewer, submitted.id);
    if current.Err? {
      r := Err(if current.error == EntityGetDenied then EntityUpdateDenied else current.error);
      return;
    }
    var stored := current.value;
    if stored.user != viewer.id && viewer.role != ADMIN {
      r := Err(EntityUpdateDenied);
      return;
    }
    if stored.user != submitted.user && viewer.role != ADMIN {
      r := Err(EntityOwnerChangeDenied);
      return;
    }
    var owned := CheckCategoriesOwned(submitted.categories, viewer.id);
    if !owned {
      r := Err(EntityOwnerInvalid);
      return;
    }
    var saved := submitted.(creationDate := stored.creationDate);
    db.photos := ReplaceById(db.photos, saved);
    r := Ok(submitted);
  }

  /** `delete`: once the guard passes, the photo's binary is deleted first and then its row.
      Deleting the binary can fail; the failure escapes before the row is touched, so nothing
      changes. Deleting the row can fail too (the database refuses to drop a photo that share or
      like rows still point at); the binary is gone by then and the row stays. On a guard error
      nothing changes. */
  method Delete(db: Store, viewer: User, id: PhotoId, binaryDeleteFails: bool, rowDeleteFails: bool)
    returns (r: Result<()>)
    requires db.Valid()
    modifies db
    ensures db.Valid()
    ensures var g := DeleteGuard(old(db.photos), viewer, id);
            (r.Ok? <==> g.Ok? && !binaryDeleteFails && !rowDeleteFails)
            && (g.Err? ==> r == Err(g.error) && db.photos == old(db.photos) && db.binaries == old(db.binaries))
            && (g.Ok? && binaryDeleteFails ==>
                  r == Err(StorageFailed) && db.photos == old(db.photos) && db.binaries == old(db.binaries))
            && (g.Ok? && !binaryDeleteFails ==> db.binaries == old(db.binaries) - {g.value.path})
            && (g.Ok? && !binaryDeleteFails && !rowDeleteFails ==> db.photos == RemoveById(old(db.photos), id))
            && (g.Ok? && !binaryDeleteFails && rowDeleteFails ==>
                  r == Err(DeleteFailed) && db.photos == old(db.photos))
    ensures db.shares == old(db.shares) && db.likes == old(db.likes) && db.users == old(db.users)
    ensures db.nextId == old(db.nextId)
  {
    var found := GetById(db.photos, viewer, id);
    if found.Err? {
      r := Err(if found.error == EntityGetDenied then EntityDeleteDenied else found.error);
      return;
    }
    var photo := found.value;
    if photo.user != viewer.id {
      r := Err(EntityDeleteDenied);
      return;
    }
    if binaryDeleteFails {
      r := Err(StorageFailed);
      return;
    }
    db.binaries := db.binaries - {photo.path};
    if rowDeleteFails {
      r := Err(DeleteFailed);
      return;
    }
    db.photos := RemoveById(db.photos, id);
    assert UniqueIds(db.photos) by {
      SubseqKeepsUniqueIds(db.photos, old(db.photos));
    }
    r := Ok(());
  }

  /** `share`: on success the submitted share is saved as it is, under a fresh id. There is no
      check for an existing share of the same photo with the same user. */
  method SharePhoto(db: Store, viewer: User, id: PhotoId, share: Share) returns (r: Result<Share>)
    requires db.Valid()
    modifies db
    ensures db.Valid()
    ensures var g := ShareGuard(old(db.photos), viewer, id, share);
            (r.Ok? <==> g.Ok?)
            && (g.Err? ==> r == Err(g.error) && db.shares == old(db.shares) && db.nextId == old(db.nextId))
            && (g.Ok? ==> r.value == share.(id := old(db.nextId))
                          && r.value !in old(db.shares)
                          && db.shares == old(db.shares) + {r.value}
                          && db.nextId == old(db.nextId) + 1)
    ensures db.photos == old(db.photos) && db.likes == old(db.likes) && db.users == old(db.users)
    ensures db.binaries == old(db.binaries)
  {
    var found := GetById(db.photos, viewer, id);
    if found.Err? {
      r := Err(if found.error == EntityGetDenied then PhotoShareDenied else found.error);
      return;
    }
    if found.value.user != viewer.id {
      r := Err(PhotoShareDenied);
      return;
    }
    if share.user == viewer.id {
      r := Err(PhotoShareTargetInvalid);
      return;
    }
    var saved := share.(id := db.nextId);
    db.shares := db.shares + {saved};
    db.nextId := db.nextId + 1;
    r := Ok(saved);
  }

  /** `like`: whoever may read the photo through `getById` adds a new like of it, even one
      they have already liked. */
  method LikePhoto(db: Store, viewer: User, id: PhotoId) returns (r: Result<Like>)
    requires db.Valid()
    modifies db
    ensures db.Valid()
    ensures var g := LikeGuard(old(db.photos), viewer, id);
            (r.Ok? <==> g.Ok?)
            && (g.Err? ==> r == Err(g.error) && db.likes == old(db.likes) && db.nextId == old(db.nextId))
            && (g.Ok? ==> r.value == Like(old(db.nextId), viewer.id, id)
                          && r.value !in old(db.likes)
                          && db.likes == old(db.likes) + {r.value}
                          && db.nextId == old(db.nextId) + 1)
    ensures db.photos == old(db.photos) && db.shares == old(db.shares) && db.users == old(db.users)
    ensures db.binaries == old(db.binaries)
  {
    var found := GetById(db.photos, viewer, id);
    if found.Err? {
      r := Err(if found.error == EntityGetDenied then PhotoLikeDenied else found.error);
      return;
    }
    var like := Like(db.nextId, viewer.id, found.value.id);
    db.likes := db.likes + {like};
    db.nextId := db.nextId + 1;
    r := Ok(like);
  }

  /** `unlike`: removes exactly the viewer's like of the photo; liking nothing is an error,
      not a no-op. */
  method Unlike(db: Store, viewer: User, id: PhotoId) returns (r: Result<()>)
    requires db.Valid()
    modifies db
    ensures db.Valid()
    ensures var g := UnlikeGuard(old(db.photos), old(db.likes), viewer, id);
            (r.Ok? <==> g.Ok?)
            && (g.Err? ==> r == Err(g.error) && db.likes == old(db.likes))
            && (g.Ok? ==> db.likes == old(db.likes) - {g.value})
    ensures db.photos == old(db.photos) && db.shares == old(db.shares) && db.users == old(db.users)
    ensures db.binaries == old(db.binaries) && db.nextId == old(db.nextId)
  {
    var found := GetById(db.photos, viewer, id);
    if found.Err? {
      r := Err(if found.error == EntityGetDenied then PhotoUnlikeDenied else found.error);
      return;
    }
    var matching := LikesBy(db.likes, viewer.id, found.value.id);
    if matching == {} {
      r := Err(PhotoUnlikeDenied);
      return;
    }
    if |matching| > 1 {
      r := Err(NonUniqueResult);
      return;
    }
    var like :| like in matching;
    OnlyElement(matching, like);
    db.likes := db.likes - {like};
    r := Ok(());
  }
}
