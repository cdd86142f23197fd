/** The decision logic inside `createPost`: the comma-joined category and
    tag slugs, and the guard that decides whether a file is attached. */
module CreatePost {
  import opened Wrappers
  import opened Wire

  /** A category or a tag of a post; only its slug is read here. */
  datatype Term = Term(slug: string)

  datatype Post = Post(title: string, content: string, status: string, categories: seq<Term>, tags: seq<Term>)

  /** The exceptions the guard can throw. */
  datatype Exception = NullPointer

  /** The request `createPost` sends once it has a nonce: its parameters in
      the order added, and the path of the file it tries to attach. Whether
      the file can be opened is not modelled: for "" the attempt fails and
      its FileNotFoundException is swallowed, so no file goes out. */
  datatype PostRequest = PostRequest(params: seq<Param>, attachmentPath: Option<string>)

  function Slugs(ts: seq<Term>): (ss: seq<string>)
    ensures |ss| == |ts| && forall i :: 0 <= i < |ts| ==> ss[i] == ts[i].slug
  {
    seq(|ts|, i requires 0 <= i < |ts| => ts[i].slug)
  }

  /** The slugs separated by ", ": "a, b, c". */
  function Joined(xs: seq<string>): (joined: string)
    decreases |xs|
  {
    if |xs| == 0 then ""
    else if |xs| == 1 then xs[0]
    else xs[0] + ", " + Joined(xs[1..])
  }

  /** What the loop has built before reaching the last slug: every slug
      so far, each followed by ", ". */
  function Lead(xs: seq<string>): (lead: string)
    decreases |xs|
  {
    if |xs| == 0 then "" else Lead(xs[..|xs| - 1]) + xs[|xs| - 1] + ", "
  }

  lemma {:induction false} JoinedSnoc(xs: seq<string>, x: string)
    requires |xs| > 0
    ensures Joined(xs + [x]) == Joined(xs) + ", " + x
    decreases |xs|
  {
    if |xs| == 1 {
      assert (xs + [x])[1..] == [x];
    } else {
      assert (xs + [x])[1..] == xs[1..] + [x];
      JoinedSnoc(xs[1..], x);
    }
  }

  lemma {:induction false} LeadIsJoinedWithSeparator(xs: seq<string>)
    requires |xs| > 0
    ensures Lead(xs) == Joined(xs) + ", "
    decreases |xs|
  {
    var init := xs[..|xs| - 1];
    if |init| > 0 {
      LeadIsJoinedWithSeparator(init);
      JoinedSnoc(init, xs[|xs| - 1]);
      assert init + [xs[|xs| - 1]] == xs;
    } else {
      assert Lead(init) == "";
    }
  }

  /** The slug loop of `createPost`, as written: every slug but the last is
      followed by ", ". */
  method JoinSlugs(terms: seq<Term>) returns (joined: string)
    ensures joined == Joined(Slugs(terms))
  {
    var slugs := Slugs(terms);
    joined := "";
    var i := 0;
    while i < |terms|
      invariant 0 <= i <= |terms|
      invariant i < |terms| || |terms| == 0 ==> joined == Lead(slugs[..i])
      invariant i == |terms| > 0 ==> joined == Lead(slugs[..i - 1]) + slugs[i - 1]
    {
      if i == |terms| - 1 {
        joined := joined + terms[i].slug;
      } else {
        joined := joined + terms[i].slug + ", ";
        assert slugs[..i + 1][..i] == slugs[..i];
      }
      i := i + 1;
    }
    if |terms| > 0 {
      var n := |terms|;
      if n > 1 {
        LeadIsJoinedWithSeparator(slugs[..n - 1]);
        JoinedSnoc(slugs[..n - 1], slugs[n - 1]);
      }
      assert slugs[..n - 1] + [slugs[n - 1]] == slugs;
    }
  }

  predicate NoComma(s: string) {
    forall i :: 0 <= i < |s| ==> s[i] != ','
  }

  /** Cutting a string at every ", ", the reading a server gives the
      joined slugs. */
  function Split(s: string): (parts: seq<string>)
    ensures |parts| >= 1
    decreases |s|
  {
    if |s| == 0 then [""]
    else if |s| >= 2 && s[0] == ',' && s[1] == ' ' then [""] + Split(s[2..])
    else
      var rest := Split(s[1..]);
      [[s[0]] + rest[0]] + rest[1..]
  }

  lemma {:induction false} SplitNoComma(a: string)
    requires NoComma(a)
    ensures Split(a) == [a]
    decreases |a|
  {
    if |a| > 0 {
      SplitNoComma(a[1..]);
      assert [a[0]] + a[1..] == a;
    }
  }

  lemma {:induction false} SplitSeparator(a: string, b: string)
    requires NoComma(a)
    ensures Split(a + ", " + b) == [a] + Split(b)
    decreases |a|
  {
    var s := a + ", " + b;
    if |a| == 0 {
      assert s == ", " + b;
      assert s[2..] == b;
    } else {
      assert s[1..] == a[1..] + ", " + b;
      SplitSeparator(a[1..], b);
      assert [a[0]] + a[1..] == a;
    }
  }

  /** Joining and cutting again gives back the slugs, as long as there is at
      least one slug and none contains a comma; so n slugs are joined with
      n - 1 separators and nothing after the last slug. */
  lemma {:induction false} SplitJoined(xs: seq<string>)
    requires |xs| > 0
    requires forall i :: 0 <= i < |xs| ==> NoComma(xs[i])
    ensures Split(Joined(xs)) == xs
    decreases |xs|
  {
    if |xs| == 1 {
      SplitNoComma(xs[0]);
    } else {
      SplitJoined(xs[1..]);
      SplitSeparator(xs[0], Joined(xs[1..]));
      assert [xs[0]] + xs[1..] == xs;
    }
  }

  /** The length of the joined string is the slugs' lengths plus two
      characters for each of the n - 1 separators. */
  lemma {:induction false} JoinedLength(xs: seq<string>)
    requires |xs| > 0
    ensures |Joined(xs)| == TotalLength(xs) + 2 * (|xs| - 1)
    decreases |xs|
  {
    if |xs| > 1 {
      JoinedLength(xs[1..]);
    }
  }

  function TotalLength(xs: seq<string>): (total: nat)
    decreases |xs|
  {
    if |xs| == 0 then 0 else |xs[0]| + TotalLength(xs[1..])
  }

  /** `!attachment.equals(null) || !attachment.equals("")`. `equals(null)`
      is false for every string, so the left operand alone makes the guard
      true whenever the attachment is not null; a null attachment throws. */
  function AttachmentGuard(attachment: Option<string>): (r: Result<bool, Exception>)
    ensures r.Failure? <==> attachment.None?
    ensures attachment.Some? ==> r == Success(true)
  {
    match attachment
    case None => Failure(NullPointer)
    case Some(a) =>
      var equalsNull := false;
      Success(!equalsNull || !(a == ""))
  }

  /** The guard the code evidently means: a non-null, non-empty path. */
  function IntendedAttachmentGuard(attachment: Option<string>): (attach: bool)
  {
    attachment.Some? && attachment.value != ""
  }

  /** The written guard agrees with the intended one exactly on the
      non-empty paths: it also lets "" through to the attachment attempt,
      and it throws on null. */
  lemma GuardAgreesOnlyOnNonEmpty(attachment: Option<string>)
    ensures AttachmentGuard(attachment) == Success(IntendedAttachmentGuard(attachment))
      <==> attachment.Some? && attachment.value != ""
    ensures AttachmentGuard(Some("")) == Success(true) && !IntendedAttachmentGuard(Some(""))
  {
  }

  /** The parameters of the post request, in the order they are added. */
  function PostParams(nonce: string, cookie: string, post: Post): (params: seq<Param>) {
    [Param("nonce", nonce), Param("cookie", cookie), Param("title", post.title),
     Param("content", post.content), Param("status", post.status),
     Param("categories", Joined(Slugs(post.categories))), Param("tags", Joined(Slugs(post.tags)))]
  }

  /** The request `createPost` builds from the nonce it received: the
      parameters in the order they are added, with the joined slugs, and an
      attachment attempt for every non-null path. A null attachment throws
      before the request is sent. */
  function CreatePostRequest(nonce: string, cookie: string, post: Post, attachment: Option<string>): (r: Result<PostRequest, Exception>)
    ensures r.Failure? <==> attachment.None?
    ensures r.Success? ==>
      && |r.value.params| == 7
      && r.value.params[0] == Param("nonce", nonce)
      && r.value.params[1] == Param("cookie", cookie)
      && r.value.params[5] == Param("categories", Joined(Slugs(post.categories)))
      && r.value.params[6] == Param("tags", Joined(Slugs(post.tags)))
      && r.value.attachmentPath == attachment
  {
    match AttachmentGuard(attachment)
    case Failure(e) => Failure(e)
    case Success(attach) => Success(PostRequest(PostParams(nonce, cookie, post), if attach then attachment else None))
  }

  /** The request with the intended guard: it never throws, and it tries to
      attach a file only for a non-null, non-empty path. */
  function IntendedCreatePostRequest(nonce: string, cookie: string, post: Post, attachment: Option<string>): (r: PostRequest)
    ensures r.params == PostParams(nonce, cookie, post)
    ensures r.attachmentPath.Some? <==> attachment.Some? && attachment.value != ""
    ensures r.attachmentPath.Some? ==> r.attachmentPath == attachment
  {
    PostRequest(PostParams(nonce, cookie, post), if IntendedAttachmentGuard(attachment) then attachment else None)
  }

  /** The written request is the intended one exactly when the path is
      non-null and non-empty; for "" the written request still tries to
      attach the path, where the intended one does not try. */
  lemma RequestAgreesOnlyOnNonEmpty(nonce: string, cookie: string, post: Post, attachment: Option<string>)
    ensures CreatePostRequest(nonce, cookie, post, attachment) == Success(IntendedCreatePostRequest(nonce, cookie, post, attachment))
      <==> attachment.Some? && attachment.value != ""
    ensures CreatePostRequest(nonce, cookie, post, Some("")).value.attachmentPath == Some("")
    ensures IntendedCreatePostRequest(nonce, cookie, post, Some("")).attachmentPath == None
  {
  }
}
