/**
 * The store-facing logic of the article handlers in campus_app/views.py: the global feed,
 * the per-type counts and the submission of `articles_by_user_page`, and the lookups by
 * (id, owner) of `edit_article_page` and `delete_article`. The requester is the id of the
 * logged-in user that `login_required` guarantees.
 */
module ArticleViews {
  import opened Wrappers
  import opened Files
  import opened Keys
  import opened ArticleModel
  import UserModel

  // ---------------------------------------------------------------------------
  // `main_page`: `Article.objects.all().order_by('-id')`

  /** `r` lists every id of `ids` exactly once, largest first. */
  predicate ListsDescending(r: seq<nat>, ids: set<nat>)
  {
    |r| == |ids|
    && (forall i :: 0 <= i < |r| ==> r[i] in ids)
    && (forall k :: k in ids ==> k in r)
    && (forall i, j :: 0 <= i < j < |r| ==> r[i] > r[j])
  }

  /** Putting the largest id in front of a listing of the others lists them all. */
  lemma PrependNewest(ids: set<nat>, newest: nat, rest: seq<nat>)
    requires newest in ids && forall k :: k in ids ==> k <= newest
    requires ListsDescending(rest, ids - {newest})
    ensures ListsDescending([newest] + rest, ids)
  {
    var r := [newest] + rest;
    var older := ids - {newest};
    assert |older| == |ids| - 1;
    assert r[0] == newest;
    forall i | 0 <= i < |rest|
      ensures r[i + 1] == rest[i] && rest[i] in older && rest[i] < newest
    {
    }
    forall i | 0 <= i < |r|
      ensures r[i] in ids
    {
      if i > 0 { assert r[i] == rest[i - 1]; }
    }
    forall k | k in ids
      ensures k in r
    {
      if k != newest {
        assert k in older;
        var i :| 0 <= i < |rest| && rest[i] == k;
        assert r[i + 1] == k;
      }
    }
    forall i, j | 0 <= i < j < |r|
      ensures r[i] > r[j]
    {
      assert r[j] == rest[j - 1];
      if i > 0 { assert r[i] == rest[i - 1]; }
    }
  }

  /** The ids in `ids`, largest first. */
  function NewestFirst(ids: set<nat>): (r: seq<nat>)
    ensures ListsDescending(r, ids)
    decreases |ids|
  {
    if ids == {} then []
    else
      var newest := MaxKey(ids);
      var rest := NewestFirst(ids - {newest});
      PrependNewest(ids, newest, rest);
      [newest] + rest
  }

  /** The rows stored under `ids`, in the order of `ids`. */
  function RowsAt(rows: map<nat, Article>, ids: seq<nat>): (r: seq<Article>)
    requires IdsMatchKeys(rows)
    requires forall i :: 0 <= i < |ids| ==> ids[i] in rows
    ensures |r| == |ids|
    ensures forall i :: 0 <= i < |r| ==> r[i].id == ids[i] && rows[ids[i]] == r[i]
  {
    if ids == [] then [] else [rows[ids[0]]] + RowsAt(rows, ids[1..])
  }

  /** Looking up a descending listing of all ids gives each row once, by descending id. */
  lemma RowsAtListing(rows: map<nat, Article>, ids: seq<nat>)
    requires IdsMatchKeys(rows)
    requires ListsDescending(ids, rows.Keys)
    ensures |RowsAt(rows, ids)| == |rows|
    ensures forall i :: 0 <= i < |RowsAt(rows, ids)| ==>
              RowsAt(rows, ids)[i].id in rows && rows[RowsAt(rows, ids)[i].id] == RowsAt(rows, ids)[i]
    ensures forall i, j :: 0 <= i < j < |RowsAt(rows, ids)| ==> RowsAt(rows, ids)[i].id > RowsAt(rows, ids)[j].id
  {
    var feed := RowsAt(rows, ids);
    assert |rows.Keys| == |rows|;
    forall i | 0 <= i < |feed|
      ensures feed[i].id in rows && rows[feed[i].id] == feed[i]
    {
      assert feed[i].id == ids[i];
    }
    forall i, j | 0 <= i < j < |feed|
      ensures feed[i].id > feed[j].id
    {
      assert feed[i].id == ids[i] && feed[j].id == ids[j];
    }
  }

  /** All articles, newest (highest id) first: each stored row once, by descending id. */
  function MainFeed(rows: map<nat, Article>): (feed: seq<Article>)
    requires IdsMatchKeys(rows)
    ensures |feed| == |rows|
    ensures forall i :: 0 <= i < |feed| ==> feed[i].id in rows && rows[feed[i].id] == feed[i]
    ensures forall i, j :: 0 <= i < j < |feed| ==> feed[i].id > feed[j].id
  {
    var ids := NewestFirst(rows.Keys);
    RowsAtListing(rows, ids);
    RowsAt(rows, ids)
  }

  /** Every stored article appears in the feed. */
  lemma MainFeedComplete(rows: map<nat, Article>, k: nat)
    requires IdsMatchKeys(rows)
    requires k in rows
    ensures rows[k] in MainFeed(rows)
  {
    var ids := NewestFirst(rows.Keys);
    var feed := RowsAt(rows, ids);
    var i :| 0 <= i < |ids| && ids[i] == k;
    assert feed[i] == rows[k];
  }

  // ---------------------------------------------------------------------------
  // `articles_by_user_page`: the per-type counts

  /** The requester's articles: `Article.objects.filter(user=request.user)`. */
  function Owned(rows: map<nat, Article>, requester: nat): set<nat>
  {
    set k | k in rows && rows[k].owner == requester
  }

  /** The requester's articles of type `t`. */
  function OfType(rows: map<nat, Article>, requester: nat, t: string): set<nat>
  {
    set k | k in rows && rows[k].owner == requester && rows[k].articleType == t
  }

  /**
   * `values('type').annotate(total=Count('type'))` turned into a dict: one entry per type
   * the requester has at least one article of, holding how many.
   */
  function TypeTotals(rows: map<nat, Article>, requester: nat): (totals: map<string, nat>)
    ensures forall t :: t in totals <==> OfType(rows, requester, t) != {}
    ensures forall t :: t in totals ==> totals[t] == |OfType(rows, requester, t)|
  {
    var present := set k | k in rows && rows[k].owner == requester :: rows[k].articleType;
    assert forall t :: t in present <==> OfType(rows, requester, t) != {} by {
      forall t
        ensures t in present <==> OfType(rows, requester, t) != {}
      {
        if t in present {
          var k :| k in rows && rows[k].owner == requester && rows[k].articleType == t;
          assert k in OfType(rows, requester, t);
        }
      }
    }
    map t | t in present :: |OfType(rows, requester, t)|
  }

  /**
   * `result_arr`: for each type choice, in choice order, the requester's number of
   * articles of that type, 0 for a type they have none of.
   */
  method CountTypes(rows: map<nat, Article>, requester: nat) returns (counts: seq<nat>)
    ensures |counts| == |TypeTags|
    ensures forall j :: 0 <= j < |counts| ==> counts[j] == |OfType(rows, requester, TypeTags[j])|
  {
    var totals := TypeTotals(rows, requester);
    counts := [];
    for i := 0 to |TypeTags|
      invariant |counts| == i
      invariant forall j :: 0 <= j < i ==> counts[j] == |OfType(rows, requester, TypeTags[j])|
    {
      counts := counts + [if TypeTags[i] in totals then totals[TypeTags[i]] else 0];
    }
  }

  function Sum(s: seq<nat>): nat
  {
    if s == [] then 0 else s[0] + Sum(s[1..])
  }

  /** The requester's articles whose type is one of `tags`. */
  function WithTypeIn(rows: map<nat, Article>, requester: nat, tags: seq<string>): set<nat>
  {
    set k | k in rows && rows[k].owner == requester && rows[k].articleType in tags
  }

  /** The articles with a type in `tags` split into those of the first tag and the rest. */
  lemma SplitFirstTag(rows: map<nat, Article>, requester: nat, tags: seq<string>)
    requires |tags| > 0 && tags[0] !in tags[1..]
    ensures WithTypeIn(rows, requester, tags)
            == OfType(rows, requester, tags[0]) + WithTypeIn(rows, requester, tags[1..])
    ensures OfType(rows, requester, tags[0]) * WithTypeIn(rows, requester, tags[1..]) == {}
  {
    assert tags == [tags[0]] + tags[1..];
  }

  lemma {:induction false} SuffixSum(rows: map<nat, Article>, requester: nat, counts: seq<nat>, i: nat)
    requires |counts| == |TypeTags|
    requires forall j :: 0 <= j < |counts| ==> counts[j] == |OfType(rows, requester, TypeTags[j])|
    requires i <= |TypeTags|
    ensures Sum(counts[i..]) == |WithTypeIn(rows, requester, TypeTags[i..])|
    decreases |TypeTags| - i
  {
    if i == |TypeTags| {
      assert WithTypeIn(rows, requester, TypeTags[i..]) == {};
    } else {
      SuffixSum(rows, requester, counts, i + 1);
      assert counts[i..][1..] == counts[i + 1..];
      var tags := TypeTags[i..];
      assert tags[0] == TypeTags[i] && tags[1..] == TypeTags[i + 1..];
      assert tags[0] !in tags[1..];
      SplitFirstTag(rows, requester, tags);
    }
  }

  /**
   * When every one of the requester's articles carries one of the four type choices, the
   * counts add up to the requester's number of articles.
   */
  lemma {:induction false} CountsSumToTotal(rows: map<nat, Article>, requester: nat, counts: seq<nat>)
    requires |counts| == |TypeTags|
    requires forall j :: 0 <= j < |counts| ==> counts[j] == |OfType(rows, requester, TypeTags[j])|
    requires forall k :: k in Owned(rows, requester) ==> rows[k].articleType in TypeTags
    ensures Sum(counts) == |Owned(rows, requester)|
  {
    SuffixSum(rows, requester, counts, 0);
    assert counts[0..] == counts;
    assert TypeTags[0..] == TypeTags;
    assert WithTypeIn(rows, requester, TypeTags) == Owned(rows, requester);
  }

  // ---------------------------------------------------------------------------
  // Submissions, edits and deletions

  /** What `ArticleForm` submits: its fields `type`, `description` and `file`. */
  datatype ArticleInput = ArticleInput(articleType: string, description: string, file: FileRef)

  /**
   * `form.is_valid()`: the type is one of the choices, the upload is not empty (the form's
   * file field refuses an empty file) and the file passes both column validators.
   */
  function FormValid(input: ArticleInput): (ok: bool)
    ensures ok <==> ParseType(input.articleType).Some?
                    && 0 < input.file.size
                    && (input.file.extension == "pdf" || input.file.extension == "docx"
                        || input.file.extension == "doc")
                    && input.file.size <= 10 * 1024 * 1024
  {
    input.articleType in TypeTags && 0 < input.file.size && FileAccepted(input.file)
  }

  /**
   * Both writers of the `type` column go through the form, so every type they store is a
   * choice: this discharges the hypothesis of `CountsSumToTotal` for the stored rows.
   */
  lemma FormValidStoresChoice(input: ArticleInput, a: Article, id: nat, owner: nat, now: nat)
    requires FormValid(input)
    ensures Edited(a, input).articleType in TypeTags
    ensures MakeArticle(id, owner, Some(input.articleType), input.description, input.file, now)
              .articleType in TypeTags
  {
  }

  /** The page each handler answers with. */
  datatype Response =
    | RedirectToMyArticles
    | RenderMyArticles(counts: seq<nat>, formRejected: bool)
    | RenderEditArticle(article: Option<Article>, formRejected: bool)
    /** Saving an edit form that is bound to no article inserts a row with no owner. */
    | OwnerlessSaveFailed

  /**
   * `Article.objects.filter(id=article_id, user=request.user).first()`: the article with
   * that id if the requester owns it, and `None` for a missing id or another user's article.
   */
  function OwnedArticle(rows: map<nat, Article>, articleId: nat, requester: nat): (r: Option<Article>)
    requires IdsMatchKeys(rows)
    ensures r.Some? <==> articleId in rows && rows[articleId].owner == requester
    ensures r.Some? ==> r.value == rows[articleId] && r.value.id == articleId
                        && r.value.owner == requester
  {
    if articleId in rows && rows[articleId].owner == requester then Some(rows[articleId]) else None
  }

  /** `form.save()` on a bound article: the form's three fields change, nothing else does. */
  function Edited(a: Article, input: ArticleInput): (r: Article)
    ensures r.id == a.id && r.owner == a.owner && r.name == a.name && r.createdAt == a.createdAt
    ensures r.articleType == input.articleType && r.description == input.description
    ensures r.file == input.file
  {
    a.(articleType := input.articleType, description := input.description, file := input.file)
  }

  /**
   * `articles_by_user_page`: computes the counts and, on a valid POST, saves the new article
   * with the requester as its owner and redirects; otherwise renders the counts, flagging
   * a rejected form.
   */
  method ArticlesByUserPage(db: UserModel.UserStore, requester: nat, post: Option<ArticleInput>, now: nat)
    returns (resp: Response)
    requires db.Valid() && requester in db.users
    modifies db.articles
    ensures db.Valid()
    ensures post.Some? && FormValid(post.value) ==>
              resp == RedirectToMyArticles
              && db.articles.nextId == old(db.articles.nextId) + 1
              && old(db.articles.nextId) !in old(db.articles.rows)
              && db.articles.rows == old(db.articles.rows)[old(db.articles.nextId) :=
                   MakeArticle(old(db.articles.nextId), requester, Some(post.value.articleType),
                               post.value.description, post.value.file, now)]
    ensures !(post.Some? && FormValid(post.value)) ==>
              db.articles.rows == old(db.articles.rows)
              && resp.RenderMyArticles? && resp.formRejected == post.Some?
              && |resp.counts| == |TypeTags|
              && forall j :: 0 <= j < |TypeTags| ==>
                   resp.counts[j] == |OfType(db.articles.rows, requester, TypeTags[j])|
  {
    var counts := CountTypes(db.articles.rows, requester);
    if post.Some? && FormValid(post.value) {
      var input := post.value;
      var a := db.articles.Insert(requester, Some(input.articleType), input.description, input.file, now);
      resp := RedirectToMyArticles;
    } else {
      resp := RenderMyArticles(counts, post.Some?);
    }
  }

  /**
   * `edit_article_page`: binds the form to the requester's article with that id, or to
   * nothing. A valid POST saves the bound article; when nothing is bound the save inserts a
   * row without an owner, which the foreign key refuses, so no row ever changes then.
   */
  method EditArticlePage(db: UserModel.UserStore, requester: nat, articleId: nat, post: Option<ArticleInput>)
    returns (resp: Response)
    requires db.Valid()
    modifies db.articles
    ensures db.Valid()
    ensures var found := OwnedArticle(old(db.articles.rows), articleId, requester);
            db.articles.rows ==
              if post.Some? && FormValid(post.value) && found.Some?
              then old(db.articles.rows)[articleId := Edited(found.value, post.value)]
              else old(db.articles.rows)
    ensures forall k :: k in old(db.articles.rows) && old(db.articles.rows)[k].owner != requester ==>
              k in db.articles.rows && db.articles.rows[k] == old(db.articles.rows)[k]
    ensures forall k :: k in old(db.articles.rows) ==>
              k in db.articles.rows && db.articles.rows[k].createdAt == old(db.articles.rows)[k].createdAt
              && db.articles.rows[k].owner == old(db.articles.rows)[k].owner
    ensures db.articles.rows.Keys == old(db.articles.rows).Keys
    ensures var found := OwnedArticle(old(db.articles.rows), articleId, requester);
            resp == if post.None? then RenderEditArticle(found, false)
                    else if !FormValid(post.value) then RenderEditArticle(found, true)
                    else if found.None? then OwnerlessSaveFailed
                    else RedirectToMyArticles
  {
    var article := OwnedArticle(db.articles.rows, articleId, requester);
    if post.None? {
      return RenderEditArticle(article, false);
    }
    var input := post.value;
    if !FormValid(input) {
      return RenderEditArticle(article, true);
    }
    if article.None? {
      return OwnerlessSaveFailed;
    }
    db.articles.Save(Edited(article.value, input));
    resp := RedirectToMyArticles;
  }

  /**
   * `delete_article`: deletes the article with that id when the requester owns it, and
   * otherwise does nothing; both paths redirect to the requester's articles.
   */
  method DeleteArticle(db: UserModel.UserStore, requester: nat, articleId: nat) returns (resp: Response)
    requires db.Valid()
    modifies db.articles
    ensures db.Valid()
    ensures resp == RedirectToMyArticles
    ensures db.articles.rows ==
              if articleId in old(db.articles.rows) && old(db.articles.rows)[articleId].owner == requester
              then old(db.articles.rows) - {articleId}
              else old(db.articles.rows)
    ensures forall k :: k in old(db.articles.rows) && k != articleId ==>
              k in db.articles.rows && db.articles.rows[k] == old(db.articles.rows)[k]
  {
    var article := OwnedArticle(db.articles.rows, articleId, requester);
    if article.Some? {
      db.articles.Remove(article.value.id);
    }
    resp := RedirectToMyArticles;
  }
}
