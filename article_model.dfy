/**
 * The `Article` table of campus_app/models.py: its fixed type choices and default,
 * its upload validators, the owner foreign key with its cascade rule, and the
 * table itself as a class whose rows the handlers insert, save and delete.
 */
module ArticleModel {
  import opened Wrappers
  import opened Files

  /** The four entries of `ARTICLE_TYPE_CHOICES`, in declaration order. */
  datatype ArticleType = Laba | Kursova | BachDiplom | MagDiplom

  /** The value stored in the `type` column for each choice. */
  function Tag(t: ArticleType): string
  {
    match t
    case Laba => "laba"
    case Kursova => "kursova"
    case BachDiplom => "bach_diplom"
    case MagDiplom => "mag_diplom"
  }

  const TypeChoices: seq<ArticleType> := [Laba, Kursova, BachDiplom, MagDiplom]

  /** The stored values of the choices, in choice order. */
  const TypeTags: seq<string> := ["laba", "kursova", "bach_diplom", "mag_diplom"]

  /** `default='laba'` of the `type` column. */
  const DefaultType: ArticleType := Laba

  lemma TypeTagsFollowChoices()
    ensures |TypeTags| == |TypeChoices| == 4
    ensures forall i :: 0 <= i < |TypeChoices| ==> TypeTags[i] == Tag(TypeChoices[i])
    ensures forall t: ArticleType :: t in TypeChoices
    ensures forall i, j :: 0 <= i < j < |TypeTags| ==> TypeTags[i] != TypeTags[j]
    ensures Tag(DefaultType) == "laba"
  {
    forall t: ArticleType
      ensures t in TypeChoices
    {
      match t
      case Laba => assert TypeChoices[0] == t;
      case Kursova => assert TypeChoices[1] == t;
      case BachDiplom => assert TypeChoices[2] == t;
      case MagDiplom => assert TypeChoices[3] == t;
    }
  }

  /** The choice whose stored value is `s`, if any (the form's choice validation). */
  function ParseType(s: string): (r: Option<ArticleType>)
    ensures r.Some? <==> s in TypeTags
    ensures r.Some? ==> Tag(r.value) == s
  {
    if s == "laba" then Some(Laba)
    else if s == "kursova" then Some(Kursova)
    else if s == "bach_diplom" then Some(BachDiplom)
    else if s == "mag_diplom" then Some(MagDiplom)
    else None
  }

  lemma ParseTagRoundTrip(t: ArticleType)
    ensures ParseType(Tag(t)) == Some(t)
  {
    match t
    case Laba =>
    case Kursova =>
    case BachDiplom =>
    case MagDiplom =>
  }

  /** `megabyte_limit * 1024 * 1024` with `megabyte_limit = 10`. */
  const MaxFileSize: nat := 10485760

  /** `file_size_validator`: a file passes unless it is larger than 10 MB. */
  function FileSizeAccepted(f: FileRef): (ok: bool)
    ensures ok <==> f.size <= 10 * 1024 * 1024
    ensures !ok <==> f.size > 10 * 1024 * 1024
  {
    f.size <= MaxFileSize
  }

  const AllowedExtensions: set<string> := {"pdf", "docx", "doc"}

  /** `FileExtensionValidator(allowed_extensions=['pdf', 'docx', 'doc'])`. */
  function ExtensionAccepted(f: FileRef): (ok: bool)
    ensures ok <==> f.extension == "pdf" || f.extension == "docx" || f.extension == "doc"
  {
    f.extension in AllowedExtensions
  }

  /** Both validators of the `file` column. */
  function FileAccepted(f: FileRef): (ok: bool)
    ensures ok <==> f.extension in AllowedExtensions && f.size <= MaxFileSize
  {
    ExtensionAccepted(f) && FileSizeAccepted(f)
  }

  /**
   * One row. `owner` is the `user` foreign key: a single user id, so every article has
   * exactly one owner. `createdAt` is the `auto_now_add` timestamp, a clock reading
   * passed in by the caller.
   */
  datatype Article = Article(
    id: nat,
    name: string,
    owner: nat,
    file: FileRef,
    description: string,
    articleType: string,
    createdAt: nat)

  /**
   * A new, not yet saved article: `name` is blank, `type` falls back to its default
   * when none is given, and `created_at` is stamped with `now`.
   */
  function MakeArticle(id: nat, owner: nat, articleType: Option<string>, description: string,
                       file: FileRef, now: nat): (a: Article)
    ensures a.id == id && a.owner == owner && a.file == file && a.description == description
    ensures a.name == "" && a.createdAt == now
    ensures articleType.None? ==> a.articleType == Tag(DefaultType)
    ensures articleType.Some? ==> a.articleType == articleType.value
  {
    Article(id, "", owner, file, description, articleType.GetOr(Tag(DefaultType)), now)
  }

  /** Every row is stored under its own id. */
  predicate IdsMatchKeys(rows: map<nat, Article>)
  {
    forall k :: k in rows ==> rows[k].id == k
  }

  /** `on_delete=models.CASCADE`: the rows left once user `owner` is deleted. */
  function Cascade(rows: map<nat, Article>, owner: nat): (r: map<nat, Article>)
    ensures forall k :: k in r ==> k in rows && r[k] == rows[k] && r[k].owner != owner
    ensures forall k :: k in rows && rows[k].owner != owner ==> k in r
  {
    map k | k in rows && rows[k].owner != owner :: rows[k]
  }

  /** The cascade removes nothing when the user owns no article. */
  lemma CascadeWithoutArticles(rows: map<nat, Article>, owner: nat)
    requires forall k :: k in rows ==> rows[k].owner != owner
    ensures Cascade(rows, owner) == rows
  {
    var r := Cascade(rows, owner);
    assert r.Keys == rows.Keys;
    forall k | k in r
      ensures r[k] == rows[k]
    {
    }
  }

  /** Removing a user's rows twice is removing them once. */
  lemma CascadeIdempotent(rows: map<nat, Article>, owner: nat)
    ensures Cascade(Cascade(rows, owner), owner) == Cascade(rows, owner)
  {
    var once := Cascade(rows, owner);
    CascadeWithoutArticles(once, owner);
  }

  /** The article table. */
  class ArticleTable {
    var rows: map<nat, Article>
    /** The id the next insert receives (an auto-increment primary key). */
    var nextId: nat

    ghost predicate Valid()
      reads this
    {
      1 <= nextId
      && IdsMatchKeys(rows)
      && forall k :: k in rows ==> k < nextId
    }

    constructor ()
      ensures Valid()
      ensures rows == map[]
    {
      rows := map[];
      nextId := 1;
    }

    /** `article.save()` of a new article: it receives a fresh id. */
    method Insert(owner: nat, articleType: Option<string>, description: string, file: FileRef, now: nat)
      returns (a: Article)
      requires Valid()
      modifies this
      ensures Valid()
      ensures a.id == old(nextId) && a.id !in old(rows)
      ensures a == MakeArticle(a.id, owner, articleType, description, file, now)
      ensures rows == old(rows)[a.id := a]
      ensures nextId == old(nextId) + 1
    {
      a := MakeArticle(nextId, owner, articleType, description, file, now);
      rows := rows[a.id := a];
      nextId := nextId + 1;
    }

    /** `article.save()` of an article already stored under its id. */
    method Save(a: Article)
      requires Valid()
      requires a.id in rows
      modifies this
      ensures Valid()
      ensures rows == old(rows)[a.id := a]
      ensures nextId == old(nextId)
    {
      rows := rows[a.id := a];
    }

    /** `article.delete()`. */
    method Remove(id: nat)
      requires Valid()
      modifies this
      ensures Valid()
      ensures rows == old(rows) - {id}
      ensures nextId == old(nextId)
    {
      rows := rows - {id};
    }

    /** The cascade run when the owning user is deleted. */
    method RemoveOwnedBy(owner: nat)
      requires Valid()
      modifies this
      ensures Valid()
      ensures rows == Cascade(old(rows), owner)
      ensures nextId == old(nextId)
    {
      rows := Cascade(rows, owner);
    }
  }
}
