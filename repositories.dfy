/** The repositories the services read and write, held in memory, and the where-clauses of
    their derived finder methods. */
module Repositories {
  import opened Outcomes
  import opened Photos
  import opened Sequences

  /** Some share grants `user` access to photo `photo`. */
  predicate SharedWith(shares: set<Share>, photo: PhotoId, user: UserId)
  {
    exists s :: s in shares && s.photo == photo && s.user == user
  }

  /** The likes of a photo: the like rows that point at it. */
  function LikesOf(likes: set<Like>, photo: PhotoId): set<Like>
  {
    set l | l in likes && l.photo == photo
  }

  function LikeCount(likes: set<Like>, photo: PhotoId): nat
  {
    |LikesOf(likes, photo)|
  }

  /** One condition of a derived finder name, e.g. `VisibilityAnd…`, `Shares_User…`,
      `CategoriesIn…`, `CreationDateGreaterThan…`. */
  datatype Atom =
    | VisibilityIs(visibility: Visibility)
    | StateIs(state: State)
    | UserIs(user: UserId)
    | SharesUserIs(grantee: UserId)
    | CategoriesContains(category: Category)
    | CategoriesIn(categories: seq<Category>)
    | TagsContains(tag: Tag)
    | CreationDateGreaterThan(date: Date)

  /** A finder's where-clause: a disjunction (the `Or` parts of its name) of conjunctions (the
      `And` parts). */
  type Where = seq<seq<Atom>>

  predicate Holds(a: Atom, shares: set<Share>, p: PhotoRecord)
  {
    match a
    case VisibilityIs(v) => p.visibility == v
    case StateIs(s) => p.state == s
    case UserIs(u) => p.user == u
    case SharesUserIs(u) => SharedWith(shares, p.id, u)
    case CategoriesContains(c) => c in p.categories
    case CategoriesIn(cs) => exists c :: c in cs && c in p.categories
    case TagsContains(t) => t in p.tags
    case CreationDateGreaterThan(d) => p.creationDate > d
  }

  predicate AllHold(conj: seq<Atom>, shares: set<Share>, p: PhotoRecord)
  {
    forall i :: 0 <= i < |conj| ==> Holds(conj[i], shares, p)
  }

  predicate Satisfies(w: Where, shares: set<Share>, p: PhotoRecord)
  {
    exists i :: 0 <= i < |w| && AllHold(w[i], shares, p)
  }

  /** What a derived `findAllBy…` / `findDistinctBy…` returns, before paging: the matching rows
      in repository order, each once. */
  function FindAll(photos: seq<PhotoRecord>, shares: set<Share>, w: Where): seq<PhotoRecord>
  {
    Filter(photos, p => Satisfies(w, shares, p))
  }

  predicate UniqueIds(photos: seq<PhotoRecord>)
  {
    forall i, j :: 0 <= i < j < |photos| ==> photos[i].id != photos[j].id
  }

  /** `findById`: the row with the given id, if any. */
  function FindById(photos: seq<PhotoRecord>, id: PhotoId): (r: Option<PhotoRecord>)
    ensures r.Some? ==> r.value in photos && r.value.id == id
    ensures r.None? <==> forall p :: p in photos ==> p.id != id
  {
    if photos == [] then None
    else if photos[0].id == id then Some(photos[0])
    else FindById(photos[1..], id)
  }

  /** With unique ids, `findById` finds the one row carrying the id. */
  lemma {:induction false} FindByIdUnique(photos: seq<PhotoRecord>, p: PhotoRecord)
    requires UniqueIds(photos)
    requires p in photos
    ensures FindById(photos, p.id) == Some(p)
  {
    if photos[0] != p {
      assert photos[0].id != p.id by {
        var k :| 0 <= k < |photos| && photos[k] == p;
        assert k != 0;
      }
      assert UniqueIds(photos[1..]) by {
        forall i, j | 0 <= i < j < |photos[1..]| ensures photos[1..][i].id != photos[1..][j].id {
          assert photos[1..][i] == photos[i + 1] && photos[1..][j] == photos[j + 1];
        }
      }
      FindByIdUnique(photos[1..], p);
    }
  }

  /** Deleting rows cannot make two rows share an id. */
  lemma {:induction false} SubseqKeepsUniqueIds(a: seq<PhotoRecord>, b: seq<PhotoRecord>)
    requires SubseqOf(a, b) && UniqueIds(b)
    ensures UniqueIds(a)
    decreases |b|
  {
    if a != [] {
      assert UniqueIds(b[1..]) by {
        forall i, j | 0 <= i < j < |b[1..]| ensures b[1..][i].id != b[1..][j].id {
          assert b[1..][i] == b[i + 1] && b[1..][j] == b[j + 1];
        }
      }
      if a[0] == b[0] && SubseqOf(a[1..], b[1..]) {
        SubseqKeepsUniqueIds(a[1..], b[1..]);
        SubseqMembers(a[1..], b[1..]);
        forall j | 0 < j < |a| ensures a[0].id != a[j].id {
          assert a[j] == a[1..][j - 1];
          assert a[j] in a[1..];
          assert a[j] in b[1..];
          var k :| 0 <= k < |b[1..]| && b[1..][k] == a[j];
          assert b[k + 1] == a[j];
        }
      } else {
        SubseqKeepsUniqueIds(a, b[1..]);
      }
    }
  }

  lemma {:induction false} SubseqMembers<T>(a: seq<T>, b: seq<T>)
    requires SubseqOf(a, b)
    ensures forall x :: x in a ==> x in b
    decreases |b|
  {
    if a != [] {
      if a[0] == b[0] && SubseqOf(a[1..], b[1..]) {
        SubseqMembers(a[1..], b[1..]);
        assert a == [a[0]] + a[1..];
      } else {
        SubseqMembers(a, b[1..]);
      }
    }
  }

  /** `save` of an existing row: the row with the same id is replaced, every other row and the
      order are kept. */
  function ReplaceById(photos: seq<PhotoRecord>, p: PhotoRecord): (r: seq<PhotoRecord>)
    ensures |r| == |photos|
    ensures forall i :: 0 <= i < |r| ==> r[i].id == photos[i].id
    ensures forall i :: 0 <= i < |r| && photos[i].id != p.id ==> r[i] == photos[i]
    ensures (exists q :: q in photos && q.id == p.id) ==> p in r
  {
    seq(|photos|, i requires 0 <= i < |photos| => if photos[i].id == p.id then p else photos[i])
  }

  /** `deleteById`: every row with the id is gone, the others stay in order. */
  function RemoveById(photos: seq<PhotoRecord>, id: PhotoId): (r: seq<PhotoRecord>)
    ensures forall q :: q in r <==> q in photos && q.id != id
    ensures SubseqOf(r, photos)
  {
    FilterIsSubseq(photos, (p: PhotoRecord) => p.id != id);
    FilterMembership(photos, (p: PhotoRecord) => p.id != id);
    Filter(photos, (p: PhotoRecord) => p.id != id)
  }

  /** A finder agrees with any filter that accepts exactly the rows its where-clause matches. */
  lemma FindAllAgrees(photos: seq<PhotoRecord>, shares: set<Share>, w: Where, f: PhotoRecord -> bool)
    requires forall p :: p in photos ==> (Satisfies(w, shares, p) <==> f(p))
    ensures FindAll(photos, shares, w) == Filter(photos, f)
  {
    FilterCongruence(photos, p => Satisfies(w, shares, p), f);
  }

  lemma AllHoldOne(a: Atom, shares: set<Share>)
    ensures forall p :: AllHold([a], shares, p) <==> Holds(a, shares, p)
  {
    forall p ensures AllHold([a], shares, p) <==> Holds(a, shares, p) {
      assert [a][0] == a;
    }
  }

  lemma {:induction false} AllHoldConcat(a: seq<Atom>, b: seq<Atom>, shares: set<Share>, p: PhotoRecord)
    ensures AllHold(a + b, shares, p) <==> AllHold(a, shares, p) && AllHold(b, shares, p)
  {
    if AllHold(a, shares, p) && AllHold(b, shares, p) {
      forall i | 0 <= i < |a + b| ensures Holds((a + b)[i], shares, p) {
        if i >= |a| {
          assert (a + b)[i] == b[i - |a|];
        }
      }
    }
    if AllHold(a + b, shares, p) {
      forall i | 0 <= i < |a| ensures Holds(a[i], shares, p) {
        assert (a + b)[i] == a[i];
      }
      forall i | 0 <= i < |b| ensures Holds(b[i], shares, p) {
        assert (a + b)[|a| + i] == b[i];
      }
    }
  }

  /** The in-memory database: the photo, share, like and user repositories, the binary store of
      uploaded images, and the id generator all entities draw from. */
  class Store {
    var photos: seq<PhotoRecord>
    var shares: set<Share>
    var likes: set<Like>
    var users: set<UserId>
    var binaries: set<Path>
    var nextId: nat

    ghost predicate Valid()
      reads this
    {
      UniqueIds(photos)
      && (forall p :: p in photos ==> p.id < nextId)
      && (forall s :: s in shares ==> s.id < nextId)
      && (forall l :: l in likes ==> l.id < nextId)
    }

    constructor (users: set<UserId>)
      ensures Valid()
      ensures photos == [] && shares == {} && likes == {} && binaries == {}
      ensures this.users == users
    {
      photos, shares, likes, binaries := [], {}, {}, {};
      this.users := users;
      nextId := 0;
    }
  }
}
