/** The share service: adding a share after its three checks, and deleting one the current user
    granted. Both report the outcome as a boolean. */
module ShareService {
  import opened Outcomes
  import opened Photos
  import opened Sequences
  import opened Repositories

  /** The shares of `photo` with `user` granted by `owner` (`findByPhotoAndUserAndOwner`). */
  function SharesGrantedBy(shares: set<Share>, photo: PhotoId, user: UserId, owner: UserId): set<Share>
  {
    set s | s in shares && s.photo == photo && s.user == user && s.owner == Some(owner)
  }

  /** No photo is shared twice with the same user. */
  predicate OneSharePerPair(shares: set<Share>)
  {
    forall s, t :: s in shares && t in shares && s.photo == t.photo && s.user == t.user ==> s == t
  }

  /** `photo` is an active photo of `owner` (`findByPhotoIDAndOwnerAndPhotoState`). */
  predicate ActivePhotoOf(photos: seq<PhotoRecord>, photo: PhotoId, owner: UserId)
  {
    exists p :: p in photos && p.id == photo && p.user == owner && p.state == ACTIVE
  }

  /** Adding a share for a pair that has none keeps every pair shared at most once; the
      definitions alone give it. */
  lemma AddingNewPairKeepsOneSharePerPair(shares: set<Share>, s: Share)
    requires OneSharePerPair(shares)
    requires !SharedWith(shares, s.photo, s.user)
    ensures OneSharePerPair(shares + {s})
  {
  }

  /** `addShare`: false, with nothing saved, when the pair is already shared, when the photo is
      not an active photo of the current user, when the grantee does not exist, or when saving
      fails; otherwise the share, stamped with the current user as owner, is saved under a
      fresh id and the answer is true. The grantee is not compared with the owner. */
  method AddShare(db: Store, current: UserId, share: Share, saveFails: bool) returns (ok: bool)
    requires db.Valid()
    modifies db
    ensures db.Valid()
    ensures ok <==> !SharedWith(old(db.shares), share.photo, share.user)
                    && ActivePhotoOf(old(db.photos), share.photo, current)
                    && share.user in old(db.users)
                    && !saveFails
    ensures !ok ==> db.shares == old(db.shares) && db.nextId == old(db.nextId)
    ensures ok ==> var saved := share.(id := old(db.nextId), owner := Some(current));
                   saved !in old(db.shares)
                   && db.shares == old(db.shares) + {saved}
                   && db.nextId == old(db.nextId) + 1
    ensures old(OneSharePerPair(db.shares)) ==> OneSharePerPair(db.shares)
    ensures db.photos == old(db.photos) && db.likes == old(db.likes) && db.users == old(db.users)
    ensures db.binaries == old(db.binaries)
  {
    if SharedWith(db.shares, share.photo, share.user) {
      return false;
    }
    var found := FindById(db.photos, share.photo);
    if !(found.Some? && found.value.user == current && found.value.state == ACTIVE) {
      if ActivePhotoOf(db.photos, share.photo, current) {
        var p :| p in db.photos && p.id == share.photo && p.user == current && p.state == ACTIVE;
        FindByIdUnique(db.photos, p);
      }
      return false;
    }
    if share.user !in db.users {
      return false;
    }
    if saveFails {
      return false;
    }
    var saved := share.(id := db.nextId, owner := Some(current));
    if OneSharePerPair(db.shares) {
      AddingNewPairKeepsOneSharePerPair(db.shares, saved);
    }
    db.shares := db.shares + {saved};
    db.nextId := db.nextId + 1;
    return true;
  }

  /** `deleteShare`: false, with nothing changed, when the current user granted no share of the
      photo to that user or when deleting fails; otherwise exactly that share is removed and the
      answer is true. If several such shares exist, the lookup itself fails. */
  method DeleteShare(db: Store, current: UserId, request: Share, deleteFails: bool)
    returns (r: Result<bool>)
    requires db.Valid()
    modifies db
    ensures db.Valid()
    ensures var m := SharesGrantedBy(old(db.shares), request.photo, request.user, current);
            (r == Err(NonUniqueResult) <==> |m| > 1)
            && (r == Ok(true) <==> |m| == 1 && !deleteFails)
            && (r == Ok(false) <==> m == {} || (|m| == 1 && deleteFails))
            && (r == Ok(true) ==> exists s :: m == {s} && db.shares == old(db.shares) - {s})
            && (r != Ok(true) ==> db.shares == old(db.shares))
    ensures db.photos == old(db.photos) && db.likes == old(db.likes) && db.users == old(db.users)
    ensures db.binaries == old(db.binaries) && db.nextId == old(db.nextId)
  {
    var m := SharesGrantedBy(db.shares, request.photo, request.user, current);
    if m == {} {
      return Ok(false);
    }
    if |m| > 1 {
      return Err(NonUniqueResult);
    }
    var share :| share in m;
    OnlyElement(m, share);
    if deleteFails {
      return Ok(false);
    }
    db.shares := db.shares - {share};
    return Ok(true);
  }
}
