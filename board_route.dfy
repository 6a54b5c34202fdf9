/** The board collection endpoint (app/api/board/route.ts): the validation
    chain in front of `addPost` and the listing. Request parsing and response
    construction are not modelled; a body field that is a string when present
    is an `Option<string>`, and a response is its status code and payload. */
module BoardRoute {
  import opened Records
  import opened Text
  import opened Board

  const MaxTitleLength := 100
  const MaxContentLength := 2000

  /** Why a POST was answered with 400. */
  datatype Rejection = MissingField | BlankField | TitleTooLong | ContentTooLong

  datatype Verdict = Rejected(reason: Rejection) | Accepted(title: string, content: string)

  /** The POST checks in order: a missing or empty field, then a field that
      trims to nothing, then the raw (untrimmed) title length, then the raw
      content length. The raw fields are what is passed on to `addPost`. */
  function ValidatePost(title: Option<string>, content: Option<string>): (v: Verdict)
    ensures v.Accepted? <==>
      && title.Some? && content.Some?
      && Trim(title.value) != [] && Trim(content.value) != []
      && |title.value| <= MaxTitleLength && |content.value| <= MaxContentLength
    ensures v.Accepted? ==> v.title == title.value && v.content == content.value
    ensures Falsy(title) || Falsy(content) ==> v == Rejected(MissingField)
    ensures !Falsy(title) && !Falsy(content) && (Blank(title) || Blank(content)) ==>
      v == Rejected(BlankField)
    ensures v == Rejected(TitleTooLong) <==>
      !Falsy(title) && !Falsy(content) && !Blank(title) && !Blank(content)
      && |title.value| > MaxTitleLength
    ensures v == Rejected(ContentTooLong) <==>
      !Falsy(title) && !Falsy(content) && !Blank(title) && !Blank(content)
      && |title.value| <= MaxTitleLength && |content.value| > MaxContentLength
  {
    if Falsy(title) || Falsy(content) then Rejected(MissingField)
    else if Trim(title.value) == [] || Trim(content.value) == [] then Rejected(BlankField)
    else if |title.value| > MaxTitleLength then Rejected(TitleTooLong)
    else if |content.value| > MaxContentLength then Rejected(ContentTooLong)
    else Accepted(title.value, content.value)
  }

  /** A post created through the endpoint has a title of 1 to 100 and a
      content of 1 to 2000 characters once trimmed. */
  lemma AcceptedIsWellFormed(title: Option<string>, content: Option<string>)
    requires ValidatePost(title, content).Accepted?
    ensures 1 <= |Trim(title.value)| <= MaxTitleLength
    ensures 1 <= |Trim(content.value)| <= MaxContentLength
  {
  }

  /** The status code the verdict is answered with. */
  function StatusOf(v: Verdict): (status: int)
    ensures status == 201 <==> v.Accepted?
    ensures status == 400 <==> v.Rejected?
  {
    if v.Accepted? then 201 else 400
  }

  /** `POST /api/board`: a rejected request is answered 400 and leaves the
      store alone; an accepted one adds exactly one post (the store then being
      re-sorted by the listing call that follows) and is answered 201 with it. */
  method HandlePost(store: PostStore, title: Option<string>, content: Option<string>, now: int)
    returns (status: int, created: Option<Post>)
    requires store.Valid()
    modifies store
    ensures store.Valid()
    ensures status == StatusOf(ValidatePost(title, content))
    ensures ValidatePost(title, content).Rejected? ==>
      && created == None
      && store.posts == old(store.posts) && store.nextId == old(store.nextId)
    ensures ValidatePost(title, content).Accepted? ==>
      && created == Some(Post(old(store.nextId), Trim(title.value), Trim(content.value), 0, [], now, None))
      && store.nextId == old(store.nextId) + 1
      && multiset(store.posts) == multiset(old(store.posts)) + multiset{created.value}
      && SortedDesc(store.posts, PostCreated)
  {
    var verdict := ValidatePost(title, content);
    if verdict.Rejected? {
      return 400, None;
    }
    var post := store.AddPost(verdict.title, verdict.content, now);
    var _ := store.GetAllPosts();
    return 201, Some(post);
  }

  /** `GET /api/board`: answered 200 with every post, newest first (the store
      itself is re-sorted). */
  method HandleGet(store: PostStore) returns (status: int, posts: seq<Post>)
    requires store.Valid()
    modifies store
    ensures store.Valid() && store.nextId == old(store.nextId)
    ensures status == 200
    ensures multiset(posts) == multiset(old(store.posts)) && SortedDesc(posts, PostCreated)
    ensures posts == store.posts
  {
    posts := store.GetAllPosts();
    status := 200;
  }
}
