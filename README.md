# Photo access and query engine — a Dafny model

This project models the decision logic of a photo-sharing backend: who may see which photo, which
photos each list query returns, and what each guarded mutation checks and then changes. Three
source files make up the core.

- `Photo.java`, the photo entity. It is modelled as the class `Photos.Photo`: its fields and
  defaults, its two constructors and one setter per field. The datatype `Photos.PhotoRecord` is
  the row the photo repository keeps for a saved photo. Users are `User(id, role)` values, and
  the Java reference comparison of `User` objects is id equality. Visibility ranges over
  `PUBLIC | PRIVATE` and state over `ARCHIVED | ACTIVE`, as two datatypes.
- `PhotoService.java`, the list queries, the single-photo read guard `getById`, and the
  mutations `add`, `update`, `delete`, `share`, `like` and `unlike`.
  - Each list query picks one of two Spring Data derived finders, the admin one or the
    non-admin one. The finder's name is a where-clause: an `Or` of `And`s. `Repositories.Atom`
    and `Repositories.Where` spell that clause out condition by condition. Lemmas then prove that
    every such clause selects exactly the photos allowed by one rule,
    `PhotoService.ActiveVisibleTo`: the photo is ACTIVE, and the viewer is an admin, or the
    photo is PUBLIC, or the viewer owns it, or it is shared with the viewer.
  - Paging is an offset/size slice taken after filtering.
  - The like-ordered queries copy the fetched page into an array and sort it in place, stably,
    most-liked first. The all-of-categories query filters the any-of page after paging.
  - The mutations are methods of the `PhotoService` module. Each takes the store, a
    `Repositories.Store` object, as its `db` parameter and updates it in place. The store holds
    the photo, share, like and user repositories, the set of stored binary paths, and one id
    counter shared by all entities. Each mutation is specified by a guard function over the old
    state (`UpdateGuard`, `DeleteGuard`, …). Its contract states the new state of the store.
- `ShareService.java`, `addShare` and `deleteShare`, methods of the `ShareService` module over
  the same store.

The current user, the clock, the uploaded file's base name and path, and its URL are all
parameters. So is whether each of five calls throws:
- the photo save in `add` (PhotoService.java:260);
- the binary delete in `delete` (PhotoService.java:307);
- the row delete in `delete` (PhotoService.java:309);
- the share save in `addShare` (ShareService.java:62);
- the share delete in `deleteShare` (ShareService.java:81).

Nothing is read from a session or from the network.

The model follows the code as written, including where it may surprise a reader:
- `getById` refuses a PRIVATE photo to a non-owner non-admin even when it is shared with them,
  and it returns ARCHIVED photos (PhotoService.java:240). Lemma
  `PhotoService.GetByIdIgnoresSharesAndState` states both.
- `like` does not reject a second like by the same user (PhotoService.java:341-343). `unlike`
  then fails with a non-unique result (PhotoService.java:355).
- `share` has no duplicate check (PhotoService.java:329). `addShare` does not compare the
  grantee with the owner (ShareService.java:46-62).
- `share` checks that the viewer owns the photo named by the `id` argument, then saves the
  submitted share as it is, whatever photo that share names (PhotoService.java:316-329). An owner
  of one photo can grant access to another user's photo. Lemma
  `PhotoService.ShareIgnoresSharePhoto` states this.
- `delete` and `share` refuse admins who do not own the photo (PhotoService.java:303, 321).
- `delete` removes the binary before the row (PhotoService.java:307-309). If deleting the row
  fails, the binary is already gone.

## Model

| member | source | states |
|---|---|---|
| Photos.Photo.constructor | src/main/java/com/photos/api/models/Photo.java:70-112 | a fresh photo is PRIVATE and ACTIVE, has no id, creation date or owner, and has empty tag, category, share and like sets |
| Photos.Photo.Full | src/main/java/com/photos/api/models/Photo.java:114-128 | the full constructor stores exactly the given name, owner, path, description, visibility and state, and every other field keeps its default |
| Photos.Photo.SetId | src/main/java/com/photos/api/models/Photo.java:134-136 | changes only the id, which then reads back as the value set |
| Photos.Photo.SetName | src/main/java/com/photos/api/models/Photo.java:142-144 | changes only the name |
| Photos.Photo.SetCreationDate | src/main/java/com/photos/api/models/Photo.java:150-152 | changes only the creation date |
| Photos.Photo.SetUser | src/main/java/com/photos/api/models/Photo.java:158-160 | changes only the owner |
| Photos.Photo.SetPath | src/main/java/com/photos/api/models/Photo.java:166-168 | changes only the storage path |
| Photos.Photo.SetUrl | src/main/java/com/photos/api/models/Photo.java:174-176 | changes only the URL |
| Photos.Photo.SetDescription | src/main/java/com/photos/api/models/Photo.java:182-184 | changes only the description |
| Photos.Photo.SetVisibility | src/main/java/com/photos/api/models/Photo.java:190-192 | changes only the visibility |
| Photos.Photo.SetState | src/main/java/com/photos/api/models/Photo.java:198-200 | changes only the state |
| Photos.Photo.SetTags | src/main/java/com/photos/api/models/Photo.java:206-208 | changes only the tag set |
| Photos.Photo.SetCategories | src/main/java/com/photos/api/models/Photo.java:214-216 | changes only the category set |
| Photos.Photo.SetShares | src/main/java/com/photos/api/models/Photo.java:222-224 | changes only the share set |
| Photos.Photo.SetLikes | src/main/java/com/photos/api/models/Photo.java:230-232 | changes only the like set |
| Repositories.FindById | src/main/java/com/photos/api/services/PhotoService.java:232-238 | the repository lookup finds a row with the id exactly when one exists |
| Repositories.FindByIdUnique | src/main/java/com/photos/api/services/PhotoService.java:232-238 | with unique ids, the lookup finds the one row that carries the id |
| Repositories.RemoveById | src/main/java/com/photos/api/services/PhotoService.java:309 | `deleteById` keeps exactly the rows with another id, in their order |
| Repositories.ReplaceById | src/main/java/com/photos/api/services/PhotoService.java:291 | saving an existing photo replaces its row and keeps every other row and every id in place |
| Sequences.Page | src/main/java/com/photos/api/services/PhotoService.java:56-72 | a page is the slice starting at the offset: element `i` is row `offset + i`, its length is the number of rows left after the offset capped at `size`, and it is empty past the end |
| PhotoService.ActiveWhereMatch | src/main/java/com/photos/api/services/PhotoService.java:60-68 | the admin finder and the non-admin three-branch finder each match a photo exactly when it is in scope and `ActiveVisibleTo` the viewer |
| PhotoService.GetAllActive | src/main/java/com/photos/api/services/PhotoService.java:56-72 | the result is the page of visible ACTIVE photos in store order, so no ARCHIVED photo appears, and a non-admin sees only photos that are public, owned by them or shared with them |
| PhotoService.AdminSeesAllActive | src/main/java/com/photos/api/services/PhotoService.java:60-61 | for an admin the query is exactly the page of ACTIVE photos |
| PhotoService.SortPageByLikes | src/main/java/com/photos/api/services/PhotoService.java:89 | the in-place `sort` yields the stable ordering by like count, largest first: sorted, a permutation, and equal counts keep page order |
| PhotoService.GetAllActiveOrderedByLikes | src/main/java/com/photos/api/services/PhotoService.java:74-92 | the result is a permutation of the `getAllActive` page, sorted by non-increasing like count, with page order kept among equal counts |
| PhotoService.ActiveNewerThanPage | src/main/java/com/photos/api/services/PhotoService.java:98-107 | the fetched page holds the visible ACTIVE photos created strictly after the date |
| PhotoService.GetAllActiveNewerThanOrderedByLikes | src/main/java/com/photos/api/services/PhotoService.java:94-112 | a permutation of that page, sorted by like count and stable, whose every photo is visible, ACTIVE and newer than the date |
| PhotoService.GetAllActiveByCategory | src/main/java/com/photos/api/services/PhotoService.java:114-130 | the page of visible ACTIVE photos filed under the category |
| PhotoService.GetAllActiveMatchingAnyOfCategories | src/main/java/com/photos/api/services/PhotoService.java:132-148 | the page of visible ACTIVE photos carrying at least one of the categories |
| PhotoService.GetAllActiveMatchingAllOfCategories | src/main/java/com/photos/api/services/PhotoService.java:150-168 | a subsequence of the any-of page holding exactly its photos that carry every requested category |
| PhotoService.GetAllActiveByTag | src/main/java/com/photos/api/services/PhotoService.java:170-186 | the page of visible ACTIVE photos carrying the tag |
| PhotoService.ByUserWhereSelects | src/main/java/com/photos/api/services/PhotoService.java:191-198 | both by-user finders select exactly the given user's photos that are `ActiveVisibleTo` the viewer |
| PhotoService.GetAllActiveByUser | src/main/java/com/photos/api/services/PhotoService.java:188-199 | only ACTIVE photos of the given user; to anyone but that user or an admin, only public ones or ones shared with the viewer |
| PhotoService.GetAllActiveByUserPage | src/main/java/com/photos/api/services/PhotoService.java:201-216 | the same selection, paged |
| PhotoService.GetAllArchivedByUser | src/main/java/com/photos/api/services/PhotoService.java:218-229 | for that user or an admin, exactly the page of the user's ARCHIVED photos; anyone else gets a get-denied error, never an empty list |
| PhotoService.ActiveQueriesNeverArchived | src/main/java/com/photos/api/services/PhotoService.java:56-216 | no active list query returns an ARCHIVED photo, whoever asks |
| PhotoService.GetById | src/main/java/com/photos/api/services/PhotoService.java:231-245 | not found iff no row has the id; get-denied iff the photo is PRIVATE and the viewer is neither owner nor admin; otherwise the stored photo itself |
| PhotoService.GetByIdIgnoresSharesAndState | src/main/java/com/photos/api/services/PhotoService.java:240 | a shared private photo is still refused to a non-owner user, and an archived public photo is still returned |
| PhotoService.UpdateGuard | src/main/java/com/photos/api/services/PhotoService.java:268-290 | errors come in source order: not found, then update-denied iff the viewer is neither owner nor admin, then owner-change-denied iff a non-admin changes the owner, then owner-invalid iff a submitted category belongs to someone else; otherwise the submitted photo is saved with its stored creation date |
| PhotoService.CheckCategoriesOwned | src/main/java/com/photos/api/services/PhotoService.java:285-289 | the loop accepts exactly when every submitted category is owned by the viewer |
| PhotoService.Update | src/main/java/com/photos/api/services/PhotoService.java:268-292 | fails with exactly the error `UpdateGuard` gives, leaving the store unchanged; otherwise replaces only the photo's row with the row `UpdateGuard` gives, which keeps the stored creation date, and returns the submitted photo as it was submitted |
| PhotoService.DeleteGuard | src/main/java/com/photos/api/services/PhotoService.java:294-305 | not found iff the id is absent; denied iff the viewer does not own the photo, admins included; otherwise the stored photo, and no other error |
| PhotoService.Delete | src/main/java/com/photos/api/services/PhotoService.java:294-310 | on a guard error changes nothing; if the binary delete fails, changes nothing and reports a storage failure; otherwise removes the photo's binary path, then removes its row unless that delete fails, in which case the row stays and a delete failure is reported; nothing else changes |
| PhotoService.ShareGuard | src/main/java/com/photos/api/services/PhotoService.java:312-327 | not found iff absent; share-denied iff the viewer does not own the photo, admins included; target-invalid iff the owner names themself |
| PhotoService.SharePhoto | src/main/java/com/photos/api/services/PhotoService.java:312-330 | on success, adds exactly the submitted share under a fresh id and does not check for duplicates; on an error changes nothing |
| PhotoService.ShareIgnoresSharePhoto | src/main/java/com/photos/api/services/PhotoService.java:316-329 | the owner of the photo `id` gets a share accepted that names another user's photo |
| PhotoService.LikeGuard | src/main/java/com/photos/api/services/PhotoService.java:332-339 | not found iff the id is absent; like-denied exactly when `getById` would refuse the viewer; otherwise the stored photo, and no other error |
| PhotoService.LikePhoto | src/main/java/com/photos/api/services/PhotoService.java:332-344 | on success, adds one new like by the viewer under a fresh id; on an error changes nothing |
| PhotoService.UnlikeGuard | src/main/java/com/photos/api/services/PhotoService.java:346-359 | unlike-denied iff the photo is unreadable or the viewer has no like on it; a non-unique-result error iff the viewer has more than one; otherwise the viewer's single like |
| PhotoService.Unlike | src/main/java/com/photos/api/services/PhotoService.java:346-362 | on success, removes exactly that like; otherwise changes nothing |
| PhotoService.Add | src/main/java/com/photos/api/services/PhotoService.java:247-266 | uploads the binary and builds a PRIVATE, ACTIVE photo owned by the current user; a successful save appends its row, while a failed save deletes the uploaded path and returns the unsaved photo |
| ShareService.AddingNewPairKeepsOneSharePerPair | src/main/java/com/photos/api/services/ShareService.java:47-62 | a share for a pair that has none keeps every pair shared at most once |
| ShareService.AddShare | src/main/java/com/photos/api/services/ShareService.java:40-69 | true iff there is no share of the pair yet, the photo is an ACTIVE photo of the current user, the grantee exists, and the save succeeds; then exactly one share, stamped with the current user as owner, is added; otherwise nothing changes; one share per pair is preserved |
| ShareService.DeleteShare | src/main/java/com/photos/api/services/ShareService.java:71-86 | a non-unique-result error iff the current user granted that pair more than one share; false with nothing changed iff none matches (photo, user, owner = current user) or the delete fails; otherwise removes exactly the matching share and returns true |
| Sequences.SortByKeyDescIsStableSort | src/main/java/com/photos/api/services/PhotoService.java:89 | the reference ordering is sorted by non-increasing key, a permutation, and stable per key |
| Sequences.SortInPlace | src/main/java/com/photos/api/services/PhotoService.java:109 | the in-place sort leaves the array equal to the reference stable ordering of its old contents |

## Left out

- Four repository calls and the upload are assumed to succeed, because the model gives them no
  failure outcome:
  - the save in `update` (PhotoService.java:291);
  - the save in `share` (PhotoService.java:329);
  - the save in `like` (PhotoService.java:343);
  - the `deleteById` in `unlike` (PhotoService.java:361);
  - `uploadFile` in `add` (PhotoService.java:250).

  `Update`, `SharePhoto`, `LikePhoto` and `Unlike` therefore always commit once their guard
  passes.

- Getters of `Photo`: Dafny reads the fields directly. Each setter's contract states the value
  the matching getter then returns.
- A null `String` field of `Photo` is modelled as the empty string. A null id, creation date or
  owner of a `Photos.Photo` object is modelled as `None`.
- `PhotoService.Update` takes the submitted photo as a `PhotoRecord`, which always has an id and
  an owner. A submitted photo without an id is not modelled; in the source `findById(null)`
  throws at PhotoService.java:272. A submitted photo without an owner is not modelled either; an
  admin's save of one at PhotoService.java:281-291 would break the `@NotNull` owner column at
  Photo.java:50-56.
- `mapPhotos` and the `FetchedPhoto` projection are not part of this model. The `FetchedPhoto`
  class is not available, so the queries return the photo rows themselves.
- Join semantics of the derived finders are not modelled. A finder that walks `Shares_User` over
  SQL joins can repeat or drop rows. The model treats every finder as a filter that yields each
  stored row once, in store order.
- `Pageable` is an offset and a size. Its sort order and its page-number arithmetic are not
  modelled. Dates are integers.
- `AmazonService` (upload, URL, delete) and `FilenameUtils.getBaseName` are foreign calls. The
  binary store is a set of paths. The upload path, the URL and the base name are parameters, and
  so is whether `delete`'s `deleteFile` throws (PhotoService.java:307).
- PhotoService.Add assumes that the compensating `deleteFile` after a failed save succeeds. In
  the source, a throwing `deleteFile` at PhotoService.java:262 escapes `add`, and no photo is
  returned.
- `@Transactional` rollback, concurrent requests and database uniqueness constraints are out of
  scope.
- Referential integrity between a photo and its share and like rows is not modelled. `Photo`
  maps `shares` and `likes` by `mappedBy = "photo"` with no cascade (Photo.java:99-109), so the
  database can refuse `deleteById` of a shared or liked photo. `PhotoService.Delete` takes
  whether the row delete fails as a parameter instead of deriving it from those rows. When the
  delete succeeds, the model leaves the photo's share and like rows in place.
- What a CategoriesIn finder does with an empty category list (PhotoService.java:137, 139, 155,
  157) depends on the JPA provider and the database, and some setups raise an SQL error. The
  model chooses that an empty list matches no photo.
- The save in `share`, `addShare` and `add` always inserts under a fresh id. Saving an entity
  that already carries an id (a merge) is not modelled.
- `addShare` exceptions other than a failing save are not modelled. The current user's lookup
  by e-mail is the `current` parameter.
- ShareService.AddShare reads three calls by their evident intent, because as written they do not
  match the entity and repository sources:
  - `share.getPhoto().getPhotoID()` (ShareService.java:52) is read as the photo's id. `Photo`
    declares only `getId()` (Photo.java:130).
  - `findByPhotoIDAndOwnerAndPhotoState` (ShareService.java:52) is read as a lookup by id, owner
    (`user`) and `state`. `Photo`'s properties are `id`, `user` and `state` (Photo.java:37, 56, 75).
  - `userRepository.findByUserID` (ShareService.java:57) is read as "the grantee's id is a
    registered user". `UserRepository` declares only `findByEmail`, which returns an `Optional`.
