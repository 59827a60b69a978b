# Static-site build of the research digest site, in Dafny

This project models `scripts/build_site.py`, the script that turns a
repository of JSON research digests into the static site. It has three parts:

- **Repository identity** (`get_repo_info`). The GitHub owner and repository
  name come from the `GITHUB_REPOSITORY` environment value when it has a `/`.
  Otherwise they are parsed from the `origin` remote URL, in HTTPS form
  (`https://github.com/owner/repo.git`) or SSH form
  (`git@github.com:owner/repo.git`). When neither identifies a repository,
  the pair is `("owner", "repo")`.
- **Page rendering.** Every `*.html` page of the site directory is written to
  the output with each `{{OWNER}}` replaced by the owner and then each
  `{{REPO}}` replaced by the repository name.
- **Digest index.** Every `*.json` digest is copied, in descending name order.
  Each one that decodes to a usable document adds an entry
  `{date, paper_count}` to `digests/index.json`. The date is the document's
  `date` member, or else the file's stem. The count is the length of `papers`,
  or 0 when it is absent.

The modules:

- `Wrappers` holds `Option`.
- `PyStrings` holds the Python `str` operations the script uses. Each is
  defined the way CPython computes it and proved to mean what Python documents.
- `Paths` holds the `pathlib` glob match and `Path.stem`.
- `RepoInfo` holds `get_repo_info`.
- `DigestIndex` holds the JSON values, the sort and the indexing loop.
- `SiteBuild` holds placeholder filling, the HTML loop and `build_site` as a whole.

The environment value, the `git remote get-url origin` output, the directory
listings, the page texts and the decoded JSON documents are all inputs.
`GetRepoInfo` is a function, because the source computes it by expression and
early return. The page loop and the digest loop are methods with loop
invariants, proved against the specification functions `Filled` and `Index`.

## Model

| member | source | states |
|---|---|---|
| PyStrings.FindFirst | scripts/build_site.py:31 | the search behind `in` returns the first index where the pattern occurs, and -1 only when it occurs nowhere |
| PyStrings.ContainsIff | scripts/build_site.py:14 | `pat in s` holds exactly when `pat` occurs at some index of `s` |
| PyStrings.SplitOnce | scripts/build_site.py:15 | `split("/", 1)` gives two pieces exactly when the separator occurs; they rejoin around it to the input and the first has no separator; otherwise the one piece is the input |
| PyStrings.Split | scripts/build_site.py:41 | `split` gives at least one piece, and exactly one (the input itself) when the separator does not occur |
| PyStrings.SplitPieces | scripts/build_site.py:41 | no piece of a split contains the separator |
| PyStrings.SplitJoin | scripts/build_site.py:41 | joining the pieces with the separator gives the input back |
| PyStrings.SplitLast | scripts/build_site.py:35-38 | `split(sep)[-1]` has no separator, is the whole input when the separator is absent, and otherwise the input ends with the separator followed by it |
| PyStrings.SplitLastChar | scripts/build_site.py:35 | after a `:` followed by `:`-free text, the last piece is that text |
| PyStrings.SplitLastAfter | scripts/build_site.py:38 | a head in which no occurrence can start, followed by the separator, does not change the last piece |
| PyStrings.RemoveSuffix | scripts/build_site.py:40 | `removesuffix` drops the suffix exactly once when the input ends with it, and otherwise returns the input |
| PyStrings.ReplaceAll | scripts/build_site.py:73-74 | `replace` leaves text without the pattern unchanged |
| PyStrings.ReplaceAllIsSplitJoin | scripts/build_site.py:73-74 | `replace` equals splitting at the pattern and joining with the replacement |
| PyStrings.ReplaceBySelf | scripts/build_site.py:73-74 | replacing a pattern by itself changes nothing |
| PyStrings.ReplaceWhole | scripts/build_site.py:73-74 | replacing a pattern in the pattern itself gives the replacement |
| PyStrings.StripLeft | scripts/build_site.py:28 | the left strip is a suffix of the input, everything it drops is whitespace, and it does not start with whitespace |
| PyStrings.StripRight | scripts/build_site.py:28 | the right strip is a prefix of the input, everything it drops is whitespace, and it does not end with whitespace |
| PyStrings.Strip | scripts/build_site.py:28 | `strip()` neither starts nor ends with whitespace and is no longer than the input |
| PyStrings.StripSurroundingSpaces | scripts/build_site.py:28 | `strip()` of whitespace, a trimmed core and whitespace is exactly the core |
| PyStrings.LessEqTotal | scripts/build_site.py:84 | any two names are ordered one way or the other |
| PyStrings.LessEqTransitive | scripts/build_site.py:84 | the name order is transitive |
| PyStrings.LessEqAntisymmetric | scripts/build_site.py:84 | names ordered both ways are equal |
| Paths.LastIndexOf | scripts/build_site.py:94 | `rfind` gives an index holding the character with none after it, or -1 when there is none |
| Paths.Stem | scripts/build_site.py:94 | the stem is a prefix of the name, cut only at a dot that is neither its first nor its last character |
| Paths.StemAtLastDot | scripts/build_site.py:94 | the cut is at the last dot, and the stem is shorter than the name exactly when that last dot is neither its first nor its last character |
| Paths.JsonStem | scripts/build_site.py:94 | the stem of a name matching `*.json` is the name less `.json`, except for `.json` itself, which is all stem |
| Paths.StemOfJsonName | scripts/build_site.py:94 | the stem of `d.json` is `d` for every non-empty `d` |
| RepoInfo.RemotePath | scripts/build_site.py:33-38 | an SSH URL's path has no `:` and follows the URL's last `:`; any other URL's path has no `github.com/` and follows its last `github.com/`; without the marker the path is the whole URL |
| RepoInfo.ParseRemote | scripts/build_site.py:31-43 | a pair is found exactly when the URL mentions github.com and its path, less `.git`, has a `/`; owner and name then have no `/`, and the path is `owner/name` or starts with `owner/name/` |
| RepoInfo.FirstTwoSegments | scripts/build_site.py:41-43 | a path with a `/` has at least two segments, neither with a `/`, and the path is those two or starts with them and a `/` |
| RepoInfo.GetRepoInfo | scripts/build_site.py:10-47 | a usable environment value is cut at its first `/`, with a `/`-free owner; otherwise the stripped git output is parsed; without git output the pair is the fallback |
| RepoInfo.EnvTakesPrecedence | scripts/build_site.py:13-16 | with a usable environment value the git remote makes no difference |
| RepoInfo.EnvNameKeepsLaterSlashes | scripts/build_site.py:15-16 | `a/b/c` gives owner `a` and name `b/c` |
| RepoInfo.DropGitSuffix | scripts/build_site.py:40 | removing `.git` undoes appending it once, for any path, so `x.git.git` keeps one `.git` |
| RepoInfo.ParseOwnerName | scripts/build_site.py:40-43 | the path `o/n.git`, with no `/` in `o` or `n`, splits into exactly `o` and `n` |
| RepoInfo.HostSlashBeforeSlash | scripts/build_site.py:38 | a `github.com/` ending at the `/` after `o` in `o/<rest>` means `o` ends in `github.com` |
| RepoInfo.NoHostSlashIn | scripts/build_site.py:38 | `o/n.git` holds no `github.com/` when neither part has a `/` and `o` does not end in `github.com` |
| RepoInfo.TrimmedGitOutput | scripts/build_site.py:28 | git output with no surrounding whitespace is parsed as it is |
| RepoInfo.ParseTwoSegments | scripts/build_site.py:41-43 | a github.com URL whose path splits into exactly two segments names them |
| RepoInfo.HttpsRemote | scripts/build_site.py:31-38 | `https://github.com/<tail>` mentions github.com, is not SSH, and its path is the last `github.com/`-piece of the tail |
| RepoInfo.HttpsPath | scripts/build_site.py:36-38 | the path of `https://github.com/o/n.git` is `o/n.git` when neither part has a `/` and `o` does not end in `github.com` |
| RepoInfo.HttpsRoundTrip | scripts/build_site.py:37-43 | `https://github.com/o/n.git` names `(o, n)` when neither part has a `/` and the owner does not end in `github.com`; `OwnerEndingInHostFallsBack` shows that such an owner breaks the round trip |
| RepoInfo.SshPath | scripts/build_site.py:33-35 | the path of `git@github.com:o/n.git` is `o/n.git` when neither part has a `:` |
| RepoInfo.SshRoundTrip | scripts/build_site.py:33-43 | `git@github.com:o/n.git` names `(o, n)` when neither part has a `/` or a `:` |
| RepoInfo.FallbackCases | scripts/build_site.py:31-47 | without a usable environment value, the fallback comes from missing git output, a URL without github.com, or a path without `/` |
| RepoInfo.PathAfterLastHost | scripts/build_site.py:38 | in `https://github.com/<o>github.com/<t>`, with no `g` in `o` and no `github.com/` in `t`, the path is `t`: the last `github.com/` wins |
| RepoInfo.OwnerEndingInHostPath | scripts/build_site.py:38 | the path of `https://github.com/xgithub.com/r.git` is `r.git` |
| RepoInfo.OwnerEndingInHostFallsBack | scripts/build_site.py:38-47 | so that URL gives the fallback pair instead of `(xgithub.com, r)` |
| RepoInfo.SingleSegment | scripts/build_site.py:40-42 | a one-segment path `p.git` has no `/` once `.git` is removed |
| RepoInfo.SlashlessPathFallsBack | scripts/build_site.py:41-47 | trimmed git output whose path has no `/` gives the fallback pair |
| RepoInfo.HostWithoutPath | scripts/build_site.py:31-38 | a URL ending at `github.com`, after a prefix shorter than `github.com/` that does not start with `g`, mentions github.com, is not SSH, and is its own path |
| RepoInfo.BareHostPath | scripts/build_site.py:31-38 | `https://github.com` has no `github.com/`, so its path is the whole URL |
| RepoInfo.BareHostUrl | scripts/build_site.py:31-43 | `https://github.com` names `("https:", "")` |
| DigestIndex.PyLen | scripts/build_site.py:95 | `len` is defined exactly on strings, lists and dicts |
| DigestIndex.EntryCases | scripts/build_site.py:92-97 | only a dict gives an entry, and only when `papers` is absent or has a length; the count is 0 without `papers` and `len(papers)` otherwise (the list length for a list); the date is the `date` member or else the stem |
| DigestIndex.StemIsDefaultDate | scripts/build_site.py:94-95 | `d.json` decoded to a dict without `date` or `papers` gives the entry (`d`, 0) |
| DigestIndex.JsonFiles | scripts/build_site.py:84 | `glob("*.json")` keeps each listed file whose name ends in `.json` exactly as many times as it is listed, and no other file |
| DigestIndex.DescendingPairs | scripts/build_site.py:84 | in descending order, every later name is at most every earlier one |
| DigestIndex.InsertDescending | scripts/build_site.py:84 | inserting into a descending list keeps it descending and adds exactly that file |
| DigestIndex.SortDescending | scripts/build_site.py:84 | `sorted(..., reverse=True)` is descending by name and a permutation of its input |
| DigestIndex.DigestFiles | scripts/build_site.py:84 | the files walked are descending by name and are a permutation of the listed `*.json` files |
| DigestIndex.Index | scripts/build_site.py:82-99 | the index never has more entries than there are files |
| DigestIndex.IndexExtend | scripts/build_site.py:92-99 | one more file appends its entry when it has one and nothing otherwise |
| DigestIndex.IndexSources | scripts/build_site.py:89-99 | entry `k` is the entry of source file `k`; sources are increasing; every file with an entry is a source, so the index length is the number of files that gave an entry |
| DigestIndex.IndexInNameOrder | scripts/build_site.py:84-97 | index entries follow the descending names of the files they come from |
| DigestIndex.IndexFiles | scripts/build_site.py:84-99 | the loop builds `Index(files)` and copies every file, including ones that do not decode, by name in order |
| DigestIndex.BuildDigestIndex | scripts/build_site.py:82-99 | a missing digests directory gives an empty index and no copies; otherwise the index and the copies are those of the sorted `*.json` files |
| SiteBuild.FillPlaceholders | scripts/build_site.py:72-74 | the two replacements give `Filled`, which is split-at-`{{OWNER}}`-join-with-owner then split-at-`{{REPO}}`-join-with-repo |
| SiteBuild.NoPlaceholders | scripts/build_site.py:73-74 | a page with neither placeholder is unchanged |
| SiteBuild.FillWithPlaceholders | scripts/build_site.py:73-74 | filling each placeholder with its own text changes nothing |
| SiteBuild.OwnerBeforeRepo | scripts/build_site.py:73-74 | the owner goes in first, so `{{REPO}}` inside the owner value is replaced too; the repository value goes in last and stays as it is |
| SiteBuild.FillOwner | scripts/build_site.py:73 | in `a{{OWNER}}b` without other braces, the placeholder becomes the owner and nothing else changes |
| SiteBuild.FillRepo | scripts/build_site.py:74 | in `a{{REPO}}b` without other braces, the placeholder becomes the repository name and nothing else changes |
| SiteBuild.HtmlPages | scripts/build_site.py:71 | `glob("*.html")` keeps exactly the listed pages whose names end in `.html` |
| SiteBuild.RenderPages | scripts/build_site.py:71-75 | every `*.html` page is written under its own name with its placeholders filled, in listing order |
| SiteBuild.BuildSite | scripts/build_site.py:50-103 | the site uses `GetRepoInfo`'s pair for every page, and its digest copies and index are those of `BuildDigestIndex` |

## Left out

- Filesystem effects are not modelled. These are: removing and recreating `_site`; the `copytree` of `css` and `js`; reading and writing pages; the `shutil.copy` of digests (modelled only as the list of copied names); writing `index.json` with `json.dump(..., indent=2)` (modelled as the list of entries); and copying `favorites.json`.
- The environment lookup and the `git remote get-url origin` subprocess are inputs. A failed or missing `git` is `None`.
- JSON decoding is an input. A file that cannot be read or decoded is `None`. Numbers are kept as their literal text, because the index only passes them through.
- Errors outside the `try` are not modelled. An example is `shutil.copy` of a directory that happens to be named `x.json`. Listed entries are taken to be regular files.
- The order of `glob("*.html")` is the directory's order. The model keeps the listing order as given.
- `sorted(..., reverse=True)` breaks ties between equal names, but a directory never lists a name twice. `SortDescending` does not fix an order among equal names.
- Python strings may hold lone surrogates. Dafny `char` values are Unicode scalar values, so such strings, and their `len`, are not represented.
- All `print` output is left out.
- Paths.MatchesStar, PyStrings.LessEq: POSIX semantics are modelled, where names are compared case-sensitively. On Windows `glob` matches `*.json` case-insensitively, and `sorted` on `Path` objects compares lowercased names.
- scripts/generate_digest.py is not part of this model. It hands the work to an external digest library and to the clock.
- The browser front end is not part of this model. That covers the favorites store, the rendering and the REST client.
