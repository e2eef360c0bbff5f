/** The post service of `app/services/post.py` over the `posts` table of
    `app/models/post.py`. Rows are kept in insertion order; ids are the
    `uuid4()` values drawn at creation, passed in by the caller. */
module PostService {
  import opened Wrappers

  datatype Post = Post(
    id: string,
    authorId: int,
    title: string,
    content: string,
    isDeleted: bool,
    createdAt: int,
    updatedAt: int)

  type Table = seq<Post>

  /** `PostCreate`. */
  datatype PostCreate = PostCreate(title: string, content: string)

  /** A `PostUpdate` field: left unset, or set, possibly to `null`
      (`model_dump(exclude_unset=True)` keeps exactly the set ones). */
  datatype Patch = Unset | SetTo(value: Option<string>)

  datatype PostUpdate = PostUpdate(title: Patch, content: Patch)

  /** What the database refuses at commit: a NOT NULL or primary-key
      violation (`IntegrityError`), or a title the `String(100)` column
      cannot hold (`DataError`). */
  datatype DbError = IntegrityError | DataError

  /** What `update_post` and `delete_post` end in: the value they return
      (`None`/`False` are `Missing`), `PermissionError("Not the owner")`,
      or a failed commit. */
  datatype Outcome<T> = Done(value: T) | Missing | NotOwner | Failed(error: DbError)

  const TitleMax: nat := 100

  /** The ids of a table are pairwise distinct (primary key), and every
      title fits its `String(100)` column. */
  ghost predicate Valid(t: Table) {
    && (forall i, j :: 0 <= i < j < |t| ==> t[i].id != t[j].id)
    && (forall i :: 0 <= i < |t| ==> |t[i].title| <= TitleMax)
  }

  /** A title `varchar(100)` refuses. PostgreSQL cuts a longer value to 100
      characters when everything past them is spaces, and raises an error
      only when some character past the hundredth is not a space. */
  predicate Overflows(title: string) {
    exists k :: TitleMax <= k < |title| && title[k] != ' '
  }

  /** The title the column holds after assignment, or `None` when it is
      refused: at most 100 characters, a prefix of the value, and whatever
      was cut off is spaces. */
  function StoredTitle(title: string): (r: Option<string>)
    ensures r.None? <==> Overflows(title)
    ensures r.Some? ==> |r.value| == (if |title| <= TitleMax then |title| else TitleMax)
    ensures r.Some? ==> r.value == title[..|r.value|]
    ensures r.Some? ==> forall k :: |r.value| <= k < |title| ==> title[k] == ' '
  {
    if Overflows(title) then None
    else if |title| <= TitleMax then Some(title)
    else Some(title[..TitleMax])
  }

  /** A stored title is stored again as itself. */
  lemma StoredTitleStable(title: string)
    requires StoredTitle(title).Some?
    ensures StoredTitle(StoredTitle(title).value) == StoredTitle(title)
  {
  }

  /** A title of exactly 100 characters followed by spaces only is stored
      as those 100 characters. */
  lemma TrailingSpacesCut(title: string, pad: string)
    requires |title| == TitleMax
    requires forall k :: 0 <= k < |pad| ==> pad[k] == ' '
    ensures StoredTitle(title + pad) == Some(title)
  {
    var s := title + pad;
    forall k | TitleMax <= k < |s|
      ensures s[k] == ' '
    {
      assert s[k] == pad[k - TitleMax];
    }
    assert s[..TitleMax] == title;
  }

  predicate HasId(t: Table, id: string) {
    exists i :: 0 <= i < |t| && t[i].id == id
  }

  /** The position of the row with the given id that is not deleted, as the
      `WHERE id = :id AND is_deleted = false` selection finds it. */
  function FindLive(t: Table, id: string): (r: Option<nat>)
    ensures r.Some? ==> r.value < |t| && t[r.value].id == id && !t[r.value].isDeleted
    ensures r.None? <==> forall i :: 0 <= i < |t| ==> t[i].id != id || t[i].isDeleted
  {
    if |t| == 0 then None
    else if t[|t| - 1].id == id && !t[|t| - 1].isDeleted then Some(|t| - 1)
    else FindLive(t[..|t| - 1], id)
  }

  /** The position of the row with the given id, deleted or not. */
  function FindAny(t: Table, id: string): (r: Option<nat>)
    ensures r.Some? ==> r.value < |t| && t[r.value].id == id
    ensures r.None? <==> !HasId(t, id)
  {
    if |t| == 0 then None
    else if t[|t| - 1].id == id then Some(|t| - 1)
    else FindAny(t[..|t| - 1], id)
  }

  /** `create_post`: a new row by the caller, not deleted, stamped `now`,
      holding the title as the column stores it. A reused id violates the
      primary key; a title the column refuses is a `DataError`. In both
      cases nothing is stored. */
  function CreatePost(t: Table, authorId: int, data: PostCreate, newId: string, now: int)
    : (r: (Table, Result<Post, DbError>))
    ensures r.1.Err? ==> r.0 == t
    ensures r.1 == Err(DataError) <==> Overflows(data.title)
    ensures r.1 == Err(IntegrityError) <==> !Overflows(data.title) && HasId(t, newId)
    ensures r.1.Ok? ==>
              && r.0 == t + [r.1.value]
              && r.1.value.id == newId && r.1.value.authorId == authorId
              && Some(r.1.value.title) == StoredTitle(data.title) && r.1.value.content == data.content
              && !r.1.value.isDeleted && r.1.value.createdAt == now
    ensures Valid(t) ==> Valid(r.0)
  {
    match StoredTitle(data.title)
    case None => (t, Err(DataError))
    case Some(title) =>
      if FindAny(t, newId).Some? then (t, Err(IntegrityError))
      else
        var p := Post(newId, authorId, title, data.content, false, now, now);
        (t + [p], Ok(p))
  }

  /** `get_post`: the post, hidden once soft-deleted unless `includeDeleted`. */
  function GetPost(t: Table, id: string, includeDeleted: bool): (r: Option<Post>)
    ensures r.Some? ==> r.value in t && r.value.id == id
    ensures r.Some? ==> includeDeleted || !r.value.isDeleted
    ensures r.None? <==> forall p :: p in t && p.id == id ==> p.isDeleted && !includeDeleted
  {
    if includeDeleted then
      match FindAny(t, id)
      case Some(i) => Some(t[i])
      case None => None
    else
      match FindLive(t, id)
      case Some(i) => Some(t[i])
      case None => None
  }

  /** The patched value of one field. */
  function ApplyField(current: string, p: Patch): Option<string>
  {
    match p
    case Unset => Some(current)
    case SetTo(v) => v
  }

  /** Whether applying the patch changes any stored value (SQLAlchemy emits
      an UPDATE, and so refreshes `updated_at`, only then). */
  predicate Changes(post: Post, u: PostUpdate) {
    ApplyField(post.title, u.title) != Some(post.title)
    || ApplyField(post.content, u.content) != Some(post.content)
  }

  /** `update_post`: only the author may update a live post; only the fields
      set in the patch change, the title as the column stores it. A title
      the column refuses is a `DataError`, and setting a field to `null`
      violates NOT NULL; then nothing changes. */
  function UpdatePost(t: Table, id: string, authorId: int, u: PostUpdate, now: int)
    : (r: (Table, Outcome<Post>))
    ensures !r.1.Done? ==> r.0 == t
    ensures r.1.Missing? <==> forall p :: p in t && p.id == id ==> p.isDeleted
    ensures r.1.NotOwner? <==> exists i :: FindLive(t, id) == Some(i) && t[i].authorId != authorId
    ensures r.1.Done? ==>
              exists i :: FindLive(t, id) == Some(i)
                && t[i].authorId == authorId
                && r.0 == t[i := r.1.value]
                && r.1.value.id == t[i].id && r.1.value.authorId == t[i].authorId
                && r.1.value.isDeleted == t[i].isDeleted && r.1.value.createdAt == t[i].createdAt
                && ApplyField(t[i].title, u.title).Some?
                && Some(r.1.value.title) == StoredTitle(ApplyField(t[i].title, u.title).value)
                && Some(r.1.value.content) == ApplyField(t[i].content, u.content)
                && r.1.value.updatedAt == (if Changes(t[i], u) then now else t[i].updatedAt)
    ensures var f := FindLive(t, id);
      f.Some? && t[f.value].authorId == authorId ==>
        var title := ApplyField(t[f.value].title, u.title);
        var content := ApplyField(t[f.value].content, u.content);
        var refused := title.Some? && Overflows(title.value);
        && (r.1 == Failed(DataError) <==> refused)
        && (r.1 == Failed(IntegrityError) <==> !refused && (title.None? || content.None?))
        && (r.1.Done? <==> !refused && title.Some? && content.Some?)
    ensures Valid(t) ==> Valid(r.0)
  {
    match FindLive(t, id)
    case None => (t, Missing)
    case Some(i) =>
      var post := t[i];
      if post.authorId != authorId then (t, NotOwner)
      else
        var title := ApplyField(post.title, u.title);
        var content := ApplyField(post.content, u.content);
        if title.Some? && StoredTitle(title.value).None? then (t, Failed(DataError))
        else if title.None? || content.None? then (t, Failed(IntegrityError))
        else
          var updated := post.(title := StoredTitle(title.value).value, content := content.value,
                               updatedAt := if Changes(post, u) then now else post.updatedAt);
          (t[i := updated], Done(updated))
  }

  /** `delete_post`: the author's soft delete of a live post. */
  function DeletePost(t: Table, id: string, authorId: int, now: int): (r: (Table, Outcome<bool>))
    ensures r.1.Done? ==> r.1.value
    ensures !r.1.Done? ==> r.0 == t
    ensures r.1.Missing? <==> forall p :: p in t && p.id == id ==> p.isDeleted
    ensures r.1.NotOwner? <==> exists i :: FindLive(t, id) == Some(i) && t[i].authorId != authorId
    ensures r.1.Done? ==>
              exists i :: FindLive(t, id) == Some(i)
                && t[i].authorId == authorId
                && r.0 == t[i := t[i].(isDeleted := true, updatedAt := now)]
    ensures !r.1.Failed?
    ensures Valid(t) ==> Valid(r.0)
  {
    match FindLive(t, id)
    case None => (t, Missing)
    case Some(i) =>
      if t[i].authorId != authorId then (t, NotOwner)
      else (t[i := t[i].(isDeleted := true, updatedAt := now)], Done(true))
  }

  /** A deleted post is gone for every later reader: a second delete finds
      nothing, and the default `get_post` no longer returns it. */
  lemma DeleteTwice(t: Table, id: string, authorId: int, now: int, later: int)
    requires Valid(t)
    requires DeletePost(t, id, authorId, now).1.Done?
    ensures var t2 := DeletePost(t, id, authorId, now).0;
      && DeletePost(t2, id, authorId, later) == (t2, Missing)
      && GetPost(t2, id, false).None?
      && GetPost(t2, id, true).Some? && GetPost(t2, id, true).value.isDeleted
  {
    var i := FindLive(t, id).value;
    var t2 := DeletePost(t, id, authorId, now).0;
    forall p | p in t2 && p.id == id
      ensures p.isDeleted
    {
      var j :| 0 <= j < |t2| && t2[j] == p;
      assert j == i;
    }
    assert t2[i].id == id;
  }

  /** An update by anyone but the author is refused and changes nothing;
      the same holds of a delete. */
  lemma NonOwnerChangesNothing(t: Table, id: string, who: int, u: PostUpdate, now: int)
    requires Valid(t)
    requires GetPost(t, id, false).Some? && GetPost(t, id, false).value.authorId != who
    ensures UpdatePost(t, id, who, u, now) == (t, NotOwner)
    ensures DeletePost(t, id, who, now) == (t, NotOwner)
  {
    var i := FindLive(t, id).value;
    var p := GetPost(t, id, false).value;
    var j :| 0 <= j < |t| && t[j] == p;
    assert j == i;
  }

  /** The author's empty patch succeeds and leaves the post exactly as it
      was, `updated_at` included. */
  lemma EmptyPatchIsIdentity(t: Table, id: string, authorId: int, now: int)
    requires Valid(t)
    requires GetPost(t, id, false).Some? && GetPost(t, id, false).value.authorId == authorId
    ensures UpdatePost(t, id, authorId, PostUpdate(Unset, Unset), now) == (t, Done(GetPost(t, id, false).value))
  {
    var i := FindLive(t, id).value;
    var p := GetPost(t, id, false).value;
    var j :| 0 <= j < |t| && t[j] == p;
    assert j == i;
    assert t[i := t[i]] == t;
  }

  /** After a successful update, reading the post gives the updated row. */
  lemma UpdateThenGet(t: Table, id: string, authorId: int, u: PostUpdate, now: int)
    requires Valid(t)
    requires UpdatePost(t, id, authorId, u, now).1.Done?
    ensures var (t2, o) := UpdatePost(t, id, authorId, u, now);
      GetPost(t2, id, false) == Some(o.value)
  {
    var (t2, o) := UpdatePost(t, id, authorId, u, now);
    var i := FindLive(t, id).value;
    assert t2[i] == o.value;
    var k := FindLive(t2, id).value;
    assert t2[k].id == t2[i].id;
  }

  // ---------------------------------------------------------------------
  // Listing: filter, newest first, then offset and limit.
  // ---------------------------------------------------------------------

  /** ASCII case folding, as the model's reading of ILIKE. */
  function Lower(c: char): char
  {
    if 'A' <= c <= 'Z' then (c as int - 'A' as int + 'a' as int) as char else c
  }

  function LowerAll(s: string): (r: string)
    ensures |r| == |s| && forall i :: 0 <= i < |s| ==> r[i] == Lower(s[i])
  {
    if |s| == 0 then [] else [Lower(s[0])] + LowerAll(s[1..])
  }

  predicate OccursAt(needle: string, hay: string, i: int) {
    0 <= i && i + |needle| <= |hay| && hay[i..i + |needle|] == needle
  }

  /** Plain substring search. */
  function Contains(hay: string, needle: string): (b: bool)
    ensures b <==> exists i :: OccursAt(needle, hay, i)
    decreases |hay|
  {
    if |needle| <= |hay| && hay[..|needle|] == needle then
      assert OccursAt(needle, hay, 0);
      true
    else if |hay| == 0 then
      assert forall i :: !OccursAt(needle, hay, i);
      false
    else
      var b := Contains(hay[1..], needle);
      assert forall i :: OccursAt(needle, hay[1..], i) <==> OccursAt(needle, hay, i + 1);
      assert forall i :: OccursAt(needle, hay, i) ==> i == 0 || OccursAt(needle, hay[1..], i - 1);
      b
  }

  /** `title ILIKE '%q%'`, without wildcard characters inside `q`. */
  predicate TitleMatches(title: string, q: string) {
    Contains(LowerAll(title), LowerAll(q))
  }

  /** The row filter of `list_posts`: not deleted, and matching `q` when
      one is given (an empty `q` is falsy and filters nothing). */
  predicate Listed(p: Post, q: Option<string>) {
    !p.isDeleted && (q.None? || q.value == "" || TitleMatches(p.title, q.value))
  }

  function Filter(t: Table, q: Option<string>): (r: Table)
    ensures forall p :: p in r <==> p in t && Listed(p, q)
    ensures multiset(r) <= multiset(t)
    ensures |r| <= |t|
  {
    if |t| == 0 then []
    else
      var rest := Filter(t[1..], q);
      assert t == [t[0]] + t[1..];
      assert multiset(t) == multiset{t[0]} + multiset(t[1..]);
      if Listed(t[0], q) then [t[0]] + rest else rest
  }

  /** Newest first. */
  ghost predicate NewestFirst(s: seq<Post>) {
    forall i, j :: 0 <= i < j < |s| ==> s[i].createdAt >= s[j].createdAt
  }

  /** A post at least as new as the head of a newest-first sequence may go
      in front of it. */
  lemma ConsNewestFirst(p: Post, s: seq<Post>)
    requires NewestFirst(s)
    requires |s| > 0 ==> p.createdAt >= s[0].createdAt
    ensures NewestFirst([p] + s)
  {
    forall i, j | 0 <= i < j < |[p] + s|
      ensures ([p] + s)[i].createdAt >= ([p] + s)[j].createdAt
    {
      if i == 0 && j > 1 {
        assert s[0].createdAt >= s[j - 1].createdAt;
      }
    }
  }

  /** Inserts a post into a newest-first sequence, after the strictly newer
      posts and before those of the same age. */
  function Insert(p: Post, s: seq<Post>): (r: seq<Post>)
    requires NewestFirst(s)
    ensures NewestFirst(r)
    ensures |r| > 0 && (r[0] == p || (|s| > 0 && r[0] == s[0]))
    ensures multiset(r) == multiset(s) + multiset{p}
  {
    if |s| == 0 then [p]
    else if s[0].createdAt > p.createdAt then
      var rest := Insert(p, s[1..]);
      assert s == [s[0]] + s[1..];
      ConsNewestFirst(s[0], rest);
      [s[0]] + rest
    else
      ConsNewestFirst(p, s);
      [p] + s
  }

  /** `ORDER BY created_at DESC`. Rows with equal timestamps keep table order,
      one of the orders the database may return. */
  function SortNewestFirst(s: seq<Post>): (r: seq<Post>)
    ensures NewestFirst(r)
    ensures multiset(r) == multiset(s)
  {
    if |s| == 0 then []
    else
      assert s == [s[0]] + s[1..];
      Insert(s[0], SortNewestFirst(s[1..]))
  }

  /** Two rows of the same age come out in table order. */
  lemma TiesKeepTableOrder(a: Post, b: Post)
    requires a.createdAt == b.createdAt
    ensures SortNewestFirst([a, b]) == [a, b]
  {
    assert [a, b][1..] == [b];
    assert [b][1..] == [];
  }

  /** `OFFSET skip LIMIT limit`: the positions from `skip`, at most `limit`
      of them. */
  function Window(s: seq<Post>, skip: nat, limit: nat): (r: seq<Post>)
    ensures |r| == if skip >= |s| then 0 else if |s| - skip < limit then |s| - skip else limit
    ensures forall k :: 0 <= k < |r| ==> r[k] == s[skip + k]
  {
    var from := if skip < |s| then skip else |s|;
    var to := if from + limit < |s| then from + limit else |s|;
    s[from..to]
  }

  /** Windows at consecutive offsets fit together. */
  lemma WindowsTile(s: seq<Post>, skip: nat, limit: nat)
    ensures Window(s, skip, limit) + Window(s, skip + limit, limit) == Window(s, skip, 2 * limit)
  {
  }

  /** A window of a newest-first sequence is newest first and holds only
      its elements. */
  lemma WindowOrdered(s: seq<Post>, skip: nat, limit: nat)
    requires NewestFirst(s)
    ensures NewestFirst(Window(s, skip, limit))
    ensures forall p :: p in Window(s, skip, limit) ==> p in s
  {
    var w := Window(s, skip, limit);
    forall p | p in w
      ensures p in s
    {
      var k :| 0 <= k < |w| && w[k] == p;
      assert s[skip + k] == p;
    }
  }

  /** Under unique ids no row occurs in the table twice. */
  lemma {:induction false} RowsOnce(t: Table)
    requires Valid(t)
    ensures forall p :: multiset(t)[p] <= 1
  {
    if |t| > 0 {
      var init := t[..|t| - 1];
      var last := t[|t| - 1];
      assert t == init + [last];
      assert Valid(init) by {
        forall i | 0 <= i < |init| ensures |init[i].title| <= TitleMax { assert init[i] == t[i]; }
        forall i, j | 0 <= i < j < |init| ensures init[i].id != init[j].id { assert init[i] == t[i] && init[j] == t[j]; }
      }
      RowsOnce(init);
      forall i | 0 <= i < |init|
        ensures init[i] != last
      {
        assert init[i].id == t[i].id != t[|t| - 1].id;
      }
      assert last !in init;
      forall p ensures multiset(t)[p] <= 1 {
        assert multiset(t)[p] == multiset(init)[p] + multiset{last}[p];
      }
    }
  }

  /** A sequence in which every element counts at most once has no
      repeated positions. */
  lemma OnceDistinct(s: seq<Post>)
    requires forall p :: multiset(s)[p] <= 1
    ensures forall i, j :: 0 <= i < j < |s| ==> s[i] != s[j]
  {
    forall i, j | 0 <= i < j < |s|
      ensures s[i] != s[j]
    {
      assert s == s[..j] + s[j..];
      assert s[i] in s[..j] && s[j] in s[j..];
      assert multiset(s)[s[i]] == multiset(s[..j])[s[i]] + multiset(s[j..])[s[i]];
    }
  }

  /** Rows drawn from a valid table, each at most as often as the table
      holds it, are pairwise distinct. */
  lemma SubTableDistinct(t: Table, r: seq<Post>)
    requires multiset(r) <= multiset(t)
    ensures Valid(t) ==> forall i, j :: 0 <= i < j < |r| ==> r[i] != r[j]
  {
    if Valid(t) {
      RowsOnce(t);
      assert forall p :: multiset(r)[p] <= multiset(t)[p];
      OnceDistinct(r);
    }
  }

  /** The listed rows, newest first; each row of the table at most once. */
  function Ordered(t: Table, q: Option<string>): (r: seq<Post>)
    ensures NewestFirst(r)
    ensures |r| == |Filter(t, q)|
    ensures multiset(r) == multiset(Filter(t, q))
    ensures forall p :: p in r <==> p in t && Listed(p, q)
    ensures Valid(t) ==> forall i, j :: 0 <= i < j < |r| ==> r[i] != r[j]
  {
    var r := SortNewestFirst(Filter(t, q));
    assert |r| == |multiset(r)| == |Filter(t, q)|;
    assert forall p :: p in r <==> p in multiset(r);
    SubTableDistinct(t, r);
    r
  }

  /** `list_posts(q, skip, limit)`: the listed rows newest first, from
      position `skip`, at most `limit` of them. */
  function ListPosts(t: Table, q: Option<string>, skip: nat, limit: nat): (r: seq<Post>)
    ensures |r| <= limit
    ensures forall p :: p in r ==> p in t && Listed(p, q)
    ensures NewestFirst(r)
    ensures forall k :: 0 <= k < |r| ==> skip + k < |Ordered(t, q)| && r[k] == Ordered(t, q)[skip + k]
    ensures var n := |Filter(t, q)|;
      |r| == if skip >= n then 0 else if n - skip < limit then n - skip else limit
  {
    var r := Window(Ordered(t, q), skip, limit);
    WindowOrdered(Ordered(t, q), skip, limit);
    r
  }

  /** The listing is a window of one newest-first order of all listed rows:
      the pages for consecutive offsets fit together, and the first
      `|listed|` positions hold every listed row exactly once. */
  lemma ListPagesTile(t: Table, q: Option<string>, skip: nat, limit: nat)
    ensures ListPosts(t, q, skip, limit) + ListPosts(t, q, skip + limit, limit)
            == ListPosts(t, q, skip, 2 * limit)
    ensures multiset(ListPosts(t, q, 0, |Filter(t, q)|)) == multiset(Filter(t, q))
    ensures Valid(t) ==>
              forall p :: p in t && Listed(p, q) ==> multiset(ListPosts(t, q, 0, |Filter(t, q)|))[p] == 1
  {
    var o := Ordered(t, q);
    WindowsTile(o, skip, limit);
    assert Window(o, 0, |o|) == o;
    if Valid(t) {
      RowsOnce(t);
      forall p | p in t && Listed(p, q)
        ensures multiset(o)[p] == 1
      {
        assert p in o;
        assert multiset(o)[p] <= multiset(t)[p];
      }
    }
  }

  /** With no `q` (or an empty one), every live post appears in a large
      enough first page. */
  lemma ListAllLive(t: Table, p: Post, limit: nat)
    requires p in t && !p.isDeleted
    requires |t| <= limit
    ensures p in ListPosts(t, None, 0, limit)
  {
    var o := Ordered(t, None);
    assert Window(o, 0, limit) == o;
  }
}
