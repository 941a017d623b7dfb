/** The photo entity and the values it refers to: users, categories, tags, shares and likes. */
module Photos {
  import opened Outcomes

  type UserId = int
  type PhotoId = int
  /** A creation timestamp; only its order matters here. */
  type Date = int
  /** The key under which the binary store keeps an uploaded image. */
  type Path = string
  /** A tag is identified by its name. */
  type Tag = string

  datatype Role = USER | ADMIN

  /** The viewer on whose behalf a service call runs. Users are compared by id. */
  datatype User = User(id: UserId, role: Role)

  datatype Visibility = PUBLIC | PRIVATE

  datatype State = ARCHIVED | ACTIVE

  /** A category belongs to the user who created it. */
  datatype Category = Category(id: int, user: UserId)

  /** A grant of access to `photo` for `user`; `owner` is the grantor, null unless a service set it. */
  datatype Share = Share(id: int, photo: PhotoId, user: UserId, owner: Option<UserId>)

  datatype Like = Like(id: int, user: UserId, photo: PhotoId)

  /** A saved photo as the photo repository holds it. Its shares and likes are not columns:
      they are the rows of the share and like repositories that point at it. */
  datatype PhotoRecord = PhotoRecord(
    id: PhotoId,
    name: string,
    creationDate: Date,
    user: UserId,
    path: Path,
    url: string,
    description: string,
    visibility: Visibility,
    state: State,
    tags: set<Tag>,
    categories: set<Category>)

  /** Every field of a `Photo` object at one moment. */
  datatype Snapshot = Snapshot(
    id: Option<PhotoId>,
    name: string,
    creationDate: Option<Date>,
    user: Option<UserId>,
    path: Path,
    url: string,
    description: string,
    visibility: Visibility,
    state: State,
    tags: set<Tag>,
    categories: set<Category>,
    shares: set<Share>,
    likes: set<Like>)

  /** The mutable photo entity. A null string field is modelled as the empty string; the id and
      the creation date stay null until the repository saves the photo. */
  class Photo {
    var id: Option<PhotoId>
    var name: string
    var creationDate: Option<Date>
    var user: Option<UserId>
    var path: Path
    var url: string
    var description: string
    var visibility: Visibility
    var state: State
    var tags: set<Tag>
    var categories: set<Category>
    var shares: set<Share>
    var likes: set<Like>

    function Fields(): Snapshot
      reads this
    {
      Snapshot(id, name, creationDate, user, path, url, description, visibility, state,
               tags, categories, shares, likes)
    }

    /** True once the repository has assigned an id and a creation date to an owned photo. */
    predicate Saved()
      reads this
    {
      id.Some? && creationDate.Some? && user.Some?
    }

    /** The row a saved photo occupies in the photo repository. */
    function Record(): PhotoRecord
      reads this
      requires Saved()
    {
      PhotoRecord(id.value, name, creationDate.value, user.value, path, url, description,
                  visibility, state, tags, categories)
    }

    /** `new Photo()`: private, active, nothing attached. */
    constructor ()
      ensures Fields() == Snapshot(None, "", None, None, "", "", "", PRIVATE, ACTIVE, {}, {}, {}, {})
      ensures !Saved()
    {
      id, name, creationDate, user := None, "", None, None;
      path, url, description := "", "", "";
      visibility, state := PRIVATE, ACTIVE;
      tags, categories, shares, likes := {}, {}, {}, {};
    }

    /** The six-argument constructor: stores exactly the given fields, the rest keep their defaults. */
    constructor Full(name: string, user: UserId, path: Path, description: string,
                     visibility: Visibility, state: State)
      ensures Fields() == Snapshot(None, name, None, Some(user), path, "", description,
                                   visibility, state, {}, {}, {}, {})
      ensures !Saved()
    {
      this.id, this.name, this.creationDate, this.user := None, name, None, Some(user);
      this.path, this.url, this.description := path, "", description;
      this.visibility, this.state := visibility, state;
      this.tags, this.categories, this.shares, this.likes := {}, {}, {}, {};
    }

    method SetId(id: Option<PhotoId>)
      modifies this
      ensures Fields() == old(Fields()).(id := id)
    {
      this.id := id;
    }

    method SetName(name: string)
      modifies this
      ensures Fields() == old(Fields()).(name := name)
    {
      this.name := name;
    }

    method SetCreationDate(creationDate: Option<Date>)
      modifies this
      ensures Fields() == old(Fields()).(creationDate := creationDate)
    {
      this.creationDate := creationDate;
    }

    method SetUser(user: Option<UserId>)
      modifies this
      ensures Fields() == old(Fields()).(user := user)
    {
      this.user := user;
    }

    method SetPath(path: Path)
      modifies this
      ensures Fields() == old(Fields()).(path := path)
    {
      this.path := path;
    }

    method SetUrl(url: string)
      modifies this
      ensures Fields() == old(Fields()).(url := url)
    {
      this.url := url;
    }

    method SetDescription(description: string)
      modifies this
      ensures Fields() == old(Fields()).(description := description)
    {
      this.description := description;
    }

    method SetVisibility(visibility: Visibility)
      modifies this
      ensures Fields() == old(Fields()).(visibility := visibility)
    {
      this.visibility := visibility;
    }

    method SetState(state: State)
      modifies this
      ensures Fields() == old(Fields()).(state := state)
    {
      this.state := state;
    }

    method SetTags(tags: set<Tag>)
      modifies this
      ensures Fields() == old(Fields()).(tags := tags)
    {
      this.tags := tags;
    }

    method SetCategories(categories: set<Category>)
      modifies this
      ensures Fields() == old(Fields()).(categories := categories)
    {
      this.categories := categories;
    }

    method SetShares(shares: set<Share>)
      modifies this
      ensures Fields() == old(Fields()).(shares := shares)
    {
      this.shares := shares;
    }

    method SetLikes(likes: set<Like>)
      modifies this
      ensures Fields() == old(Fields()).(likes := likes)
    {
      this.likes := likes;
    }
  }
}
