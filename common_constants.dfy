/** `src/constants/common.ts`: the content languages and the entity
    identifier pattern. */
module CommonConstants {
  import opened JsString
  import opened SegmentPattern

  /** `ALLOWED_LANGUAGES` */
  const AllowedLanguages: seq<string> := ["en", "ru"]

  /** Membership in `ALLOWED_LANGUAGES`, as `ALLOWED_LANGUAGES_SET.has`. */
  predicate IsAllowedLanguage(lang: string) {
    lang in AllowedLanguages
  }

  lemma AllowedLanguagesAre(lang: string)
    ensures IsAllowedLanguage(lang) <==> lang == "en" || lang == "ru"
  {
  }

  /** `[\w-]` */
  predicate IsEntityChar(c: char) {
    IsWordChar(c) || c == '-'
  }

  /** `ENTITY_ID_PATTERN`, `^[\w-]+(?:\.[\w-]+)*$`. */
  predicate IsEntityId(s: string) {
    Matches(s, '.', IsEntityChar)
  }

  /** An entity id, character by character: non-empty, no dot at either end,
      no two dots in a row, and otherwise letters, digits, `_` and `-`. */
  lemma EntityIdShape(s: string)
    ensures IsEntityId(s) <==>
      s != [] && s[0] != '.' && s[|s| - 1] != '.' &&
      (forall i :: 0 <= i < |s| ==> s[i] == '.' || IsEntityChar(s[i])) &&
      (forall i :: 0 <= i < |s| - 1 ==> s[i] != '.' || s[i + 1] != '.')
  {
    MatchesIsDelimited(s, '.', IsEntityChar);
  }

  /** The empty string, a leading dot, a trailing dot and a double dot are
      rejected. */
  lemma RejectedIds(a: string, b: string)
    ensures !IsEntityId("")
    ensures !IsEntityId("." + a) && !IsEntityId(a + ".")
    ensures !IsEntityId(a + ".." + b)
  {
    EntityIdShape("");
    EntityIdShape("." + a);
    EntityIdShape(a + ".");
    var s := a + ".." + b;
    EntityIdShape(s);
    assert s[|a|] == '.' && s[|a| + 1] == '.';
  }

  /** Dot-separated segments of `[\w-]+` are exactly the entity ids. */
  lemma EntityIdSegments(s: string, seg: string)
    requires seg != [] && forall i :: 0 <= i < |seg| ==> IsEntityChar(seg[i])
    ensures IsEntityId(seg)
    ensures IsEntityId(s + "." + seg) <==> IsEntityId(s)
  {
    OneSegment(seg, '.', IsEntityChar);
    AddSegment(s, seg, '.', IsEntityChar);
  }

  /** The documented examples: `page-1`, `article_42`, `docs.section1` and
      `product-category.sub-category` are ids. */
  lemma ExampleIds()
    ensures IsEntityId("page-1") && IsEntityId("article_42")
    ensures IsEntityId("docs.section1") && IsEntityId("product-category.sub-category")
  {
    PageOneId();
    ArticleId();
    DocsSectionId();
    CategoryId();
  }

  lemma PageOneId()
    ensures IsEntityId("page-1")
  {
    EntityIdSegments("", "page-1");
  }

  lemma ArticleId()
    ensures IsEntityId("article_42")
  {
    EntityIdSegments("", "article_42");
  }

  lemma DocsSectionId()
    ensures IsEntityId("docs.section1")
  {
    TwoSegments("docs", "section1");
    assert "docs" + "." + "section1" == "docs.section1";
  }

  lemma CategoryId()
    ensures IsEntityId("product-category.sub-category")
  {
    TwoSegments("product-category", "sub-category");
    assert "product-category" + "." + "sub-category" == "product-category.sub-category";
  }

  lemma TwoSegments(a: string, b: string)
    requires a != [] && forall i :: 0 <= i < |a| ==> IsEntityChar(a[i])
    requires b != [] && forall i :: 0 <= i < |b| ==> IsEntityChar(b[i])
    ensures IsEntityId(a + "." + b)
  {
    EntityIdSegments(a, a);
    EntityIdSegments(a, b);
  }
}
