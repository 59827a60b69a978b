/**
 * The page-rendering and overall flow of `build_site` in
 * scripts/build_site.py: each `*.html` page of the site directory is copied
 * with its `{{OWNER}}` and `{{REPO}}` placeholders filled in, then the digests
 * are copied and indexed.
 */
module SiteBuild {
  import opened Wrappers
  import opened PyStrings
  import opened Paths
  import opened RepoInfo
  import opened DigestIndex

  const OwnerPlaceholder: string := "{{OWNER}}"
  const RepoPlaceholder: string := "{{REPO}}"

  /** A file of the site directory or of the output: its name and its text. */
  datatype Page = Page(name: string, content: string)

  /** What `build_site` produces, less the static assets it copies unchanged. */
  datatype Site = Site(
    repo: RepoId,
    pages: seq<Page>,
    copiedDigests: seq<string>,
    index: seq<IndexEntry>)

  /** The page text once both placeholders are filled, owner first. */
  function Filled(content: string, owner: string, repo: string): string {
    ReplaceAll(ReplaceAll(content, OwnerPlaceholder, owner), RepoPlaceholder, repo)
  }

  /** The loop body's two `content = content.replace(...)` steps. */
  method FillPlaceholders(content: string, owner: string, repo: string) returns (r: string)
    ensures r == Filled(content, owner, repo)
    ensures r == Join(Split(Join(Split(content, OwnerPlaceholder), owner), RepoPlaceholder), repo)
  {
    r := content;
    r := ReplaceAll(r, OwnerPlaceholder, owner);
    ReplaceAllIsSplitJoin(content, OwnerPlaceholder, owner);
    ReplaceAllIsSplitJoin(r, RepoPlaceholder, repo);
    r := ReplaceAll(r, RepoPlaceholder, repo);
  }

  /** A page with neither placeholder is copied as it is. */
  lemma NoPlaceholders(content: string, owner: string, repo: string)
    requires !Contains(content, OwnerPlaceholder) && !Contains(content, RepoPlaceholder)
    ensures Filled(content, owner, repo) == content
  {
  }

  /** Filling each placeholder with itself changes nothing. */
  lemma FillWithPlaceholders(content: string)
    ensures Filled(content, OwnerPlaceholder, RepoPlaceholder) == content
  {
    ReplaceBySelf(content, OwnerPlaceholder);
    ReplaceBySelf(content, RepoPlaceholder);
  }

  /**
   * The owner is substituted first, so `{{REPO}}` inside the owner value is
   * replaced as well; the repository value is substituted last and kept as it is.
   */
  lemma OwnerBeforeRepo(owner: string, repo: string)
    ensures Filled(OwnerPlaceholder, owner, repo) == ReplaceAll(owner, RepoPlaceholder, repo)
    ensures Filled(RepoPlaceholder, owner, repo) == repo
  {
    ReplaceWhole(OwnerPlaceholder, owner);
    ReplaceWhole(RepoPlaceholder, repo);
    assert RepoPlaceholder[2] == 'R' != OwnerPlaceholder[2];
    assert !Contains(RepoPlaceholder, OwnerPlaceholder) by {
      FindFirst(RepoPlaceholder, OwnerPlaceholder);
    }
  }

  /**
   * In a page `a{{OWNER}}b` whose text and owner have no `{`, the placeholder
   * becomes the owner and nothing else changes.
   */
  lemma FillOwner(a: string, b: string, owner: string, repo: string)
    requires '{' !in a && '{' !in b && '{' !in owner
    ensures Filled(a + OwnerPlaceholder + b, owner, repo) == a + owner + b
  {
    var s := a + OwnerPlaceholder + b;
    FindAfterHead(a, OwnerPlaceholder, b);
    ReplaceStep(s, OwnerPlaceholder, owner, |a|);
    PartsOfConcat(a, OwnerPlaceholder, b);
    AbsentFirst(b, OwnerPlaceholder);
    NoBraceIn(a, owner, b);
    AbsentFirst(a + owner + b, RepoPlaceholder);
  }

  /** `{` is in none of three texts, so it is not in their concatenation. */
  lemma NoBraceIn(a: string, b: string, c: string)
    requires '{' !in a && '{' !in b && '{' !in c
    ensures '{' !in a + b + c
  {
  }

  /**
   * In a page `a{{REPO}}b` whose text and repository name have no `{`, the
   * placeholder becomes the repository name and nothing else changes.
   */
  lemma FillRepo(a: string, b: string, owner: string, repo: string)
    requires '{' !in a && '{' !in b && '{' !in repo
    ensures Filled(a + RepoPlaceholder + b, owner, repo) == a + repo + b
  {
    var s := a + RepoPlaceholder + b;
    NoOwnerInRepoPage(a, b);
    FindAfterHead(a, RepoPlaceholder, b);
    ReplaceStep(s, RepoPlaceholder, repo, |a|);
    PartsOfConcat(a, RepoPlaceholder, b);
    AbsentFirst(b, RepoPlaceholder);
  }

  /** `a{{REPO}}b` has no `{{OWNER}}` when `a` and `b` have no `{`. */
  lemma NoOwnerInRepoPage(a: string, b: string)
    requires '{' !in a && '{' !in b
    ensures !Contains(a + RepoPlaceholder + b, OwnerPlaceholder)
  {
    var s := a + RepoPlaceholder + b;
    assert OwnerPlaceholder[0] == '{' && OwnerPlaceholder[2] == 'O';
    forall j | 0 <= j && j + |OwnerPlaceholder| <= |s|
      ensures !OccursAt(s, OwnerPlaceholder, j)
    {
      if j < |a| {
        assert s[j] == a[j];
      } else if j == |a| || j == |a| + 1 {
        assert s[j + 2] == RepoPlaceholder[j + 2 - |a|];
      } else if j < |a| + |RepoPlaceholder| {
        assert s[j] == RepoPlaceholder[j - |a|];
      } else {
        assert s[j] == b[j - |a| - |RepoPlaceholder|];
      }
    }
    FindFirst(s, OwnerPlaceholder);
  }

  /** `site_dir.glob("*.html")`, in listing order. */
  function HtmlPages(listing: seq<Page>): (r: seq<Page>)
    ensures forall p :: p in r <==> p in listing && MatchesStar(p.name, ".html")
    ensures |r| <= |listing|
  {
    if listing == [] then []
    else
      var rest := HtmlPages(listing[1..]);
      assert listing == [listing[0]] + listing[1..];
      if MatchesStar(listing[0].name, ".html") then [listing[0]] + rest else rest
  }

  /**
   * The HTML loop: every `*.html` page of `listing` is written under the same
   * name with its placeholders filled, in listing order.
   */
  method RenderPages(listing: seq<Page>, owner: string, repo: string) returns (out: seq<Page>)
    ensures var html := HtmlPages(listing);
      && |out| == |html|
      && forall k :: 0 <= k < |html| ==>
        out[k].name == html[k].name && out[k].content == Filled(html[k].content, owner, repo)
  {
    var html := HtmlPages(listing);
    out := [];
    for i := 0 to |html|
      invariant |out| == i
      invariant forall k :: 0 <= k < i ==>
        out[k].name == html[k].name && out[k].content == Filled(html[k].content, owner, repo)
    {
      var content := FillPlaceholders(html[i].content, owner, repo);
      out := out + [Page(html[i].name, content)];
    }
  }

  /**
   * `build_site()`: the repository pair, the rendered pages, the digest
   * files copied and the index written. `env` and `gitOutput` are as for
   * `GetRepoInfo`; `siteListing` is the site directory; `digests` the digests
   * directory, `None` when it does not exist.
   */
  method BuildSite(env: Option<string>, gitOutput: Option<string>, siteListing: seq<Page>,
                   digests: Option<seq<DigestFile>>) returns (site: Site)
    ensures site.repo == GetRepoInfo(env, gitOutput)
    ensures var html := HtmlPages(siteListing);
      && |site.pages| == |html|
      && forall k :: 0 <= k < |html| ==>
        site.pages[k].name == html[k].name
        && site.pages[k].content == Filled(html[k].content, site.repo.owner, site.repo.name)
    ensures digests.None? ==> site.index == [] && site.copiedDigests == []
    ensures digests.Some? ==>
      var files := DigestFiles(digests.value);
      && site.index == Index(files)
      && |site.copiedDigests| == |files|
      && forall k :: 0 <= k < |files| ==> site.copiedDigests[k] == files[k].name
  {
    var repo := GetRepoInfo(env, gitOutput);
    var pages := RenderPages(siteListing, repo.owner, repo.name);
    var index, copied := BuildDigestIndex(digests);
    site := Site(repo, pages, copied, index);
  }
}
