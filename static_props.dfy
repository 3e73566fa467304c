/** The build-time half of the page (`getStaticProps`): one project record per
    repository, shaped from the repository descriptor and the three texts read
    out of its README. The HTTP requests and the HTML parser are not modelled:
    what they produce for a repository is an input `Fetched` value. */
module StaticProps {
  import opened JsString

  datatype Option<T> = None | Some(value: T)

  /** The fields of one entry of the repository listing that the page reads. */
  datatype Repo = Repo(name: string, htmlUrl: string, description: Option<string>)

  /** The texts the HTML parser yields for a README: the text of the title
      element, the text of the technologies element (both empty when the element
      is missing) and the text of each item of the links list, in document order. */
  datatype Readme = Readme(titleText: string, techsText: string, linkItems: seq<string>)

  /** What fetching and parsing a README gives: its texts, or an exception. A
      README that does not exist still arrives as text (the error page) and is
      therefore `Parsed`. */
  datatype Fetched = Parsed(readme: Readme) | Failed

  /** The `links` field: a list of URLs on the normal path, and a single string
      of HTML anchor markup on the failure path. */
  datatype Links = LinkList(urls: seq<string>) | AnchorMarkup(html: string)

  datatype Project = Project(
    name: string,
    htmlUrl: string,
    title: string,
    technologies: seq<string>,
    description: Option<string>,
    links: Links)

  /** `titleText || name`: the extracted title, or the repository name when it is empty. */
  function TitleOf(titleText: string, name: string): (title: string)
    ensures titleText == [] ==> title == name
    ensures titleText != [] ==> title == titleText
    ensures title == [] <==> titleText == [] && name == []
  {
    if titleText == [] then name else titleText
  }

  /** `techsText.split(",").map((tech) => tech.trim())`. */
  function Technologies(techsText: string): (techs: seq<string>)
    ensures |techs| == multiset(techsText)[','] + 1
  {
    SplitShape(techsText, ',');
    TrimAll(Split(techsText, ','))
  }

  /** There is one technology more than there are commas in the text, and each
      one is the trimmed text of one comma-separated piece, in the order of the
      text, so it neither starts nor ends with white space and holds no comma. */
  lemma TechnologiesPieces(techsText: string)
    ensures |Technologies(techsText)| == multiset(techsText)[','] + 1
    ensures forall k :: 0 <= k < |Technologies(techsText)| ==>
              Technologies(techsText)[k] == Trim(Split(techsText, ',')[k])
    ensures forall k :: 0 <= k < |Technologies(techsText)| ==>
              Trimmed(Technologies(techsText)[k]) && ',' !in Technologies(techsText)[k]
  {
    var parts := Split(techsText, ',');
    SplitShape(techsText, ',');
    forall k | 0 <= k < |parts| ensures ',' !in Trim(parts[k]) {
      TrimKeepsOut(parts[k], ',');
    }
  }

  /** Without a comma the whole trimmed text is the only technology, so a
      missing element gives a single empty technology. */
  lemma TechnologiesWithoutComma(techsText: string)
    ensures ',' !in techsText ==> Technologies(techsText) == [Trim(techsText)]
    ensures Technologies([]) == [[]]
  {
    if ',' !in techsText {
      var parts := Split(techsText, ',');
      SplitShape(techsText, ',');
      assert multiset(techsText)[','] == 0;
      assert |parts| == 1;
      JoinSplit(techsText, ',');
      assert parts[0] == techsText;
    }
    assert Split([], ',') == [[]];
  }

  /** The pieces the technologies are trimmed from join back, comma-separated,
      into the extracted text. */
  lemma TechnologiesCoverText(techsText: string)
    ensures |Split(techsText, ',')| == |Technologies(techsText)|
    ensures Join(Split(techsText, ','), ',') == techsText
  {
    JoinSplit(techsText, ',');
  }

  /** The `links` array of the normal path: the repository URL, then the trimmed
      text of every list item. */
  function LinksOf(htmlUrl: string, linkItems: seq<string>): (links: seq<string>)
    ensures links != [] && links[0] == htmlUrl
    ensures |links| == |linkItems| + 1
  {
    [htmlUrl] + TrimAll(linkItems)
  }

  /** Builds `links` as `getStaticProps` does: start from the repository URL and push
      each trimmed list item in turn. */
  method CollectLinks(htmlUrl: string, linkItems: seq<string>) returns (links: seq<string>)
    ensures links == LinksOf(htmlUrl, linkItems)
  {
    links := [htmlUrl];
    var i := 0;
    while i < |linkItems|
      invariant 0 <= i <= |linkItems|
      invariant |links| == i + 1 && links[0] == htmlUrl
      invariant forall k :: 0 <= k < i ==> links[k + 1] == Trim(linkItems[k])
    {
      links := links + [Trim(linkItems[i])];
      i := i + 1;
    }
    ghost var spec := LinksOf(htmlUrl, linkItems);
    forall k | 0 <= k < |links| ensures links[k] == spec[k] {
      if k > 0 {
        assert spec[k] == TrimAll(linkItems)[k - 1];
      }
    }
  }

  /** The repository URL comes first, so the list is never empty; then one
      entry per list item, in document order, each of them trimmed. */
  lemma LinksShape(htmlUrl: string, linkItems: seq<string>)
    ensures LinksOf(htmlUrl, linkItems) != [] && LinksOf(htmlUrl, linkItems)[0] == htmlUrl
    ensures |LinksOf(htmlUrl, linkItems)| == |linkItems| + 1
    ensures forall k :: 0 <= k < |linkItems| ==>
              LinksOf(htmlUrl, linkItems)[k + 1] == Trim(linkItems[k])
              && Trimmed(LinksOf(htmlUrl, linkItems)[k + 1])
  {
    var links := LinksOf(htmlUrl, linkItems);
    forall k | 0 <= k < |linkItems|
      ensures links[k + 1] == Trim(linkItems[k]) && Trimmed(links[k + 1])
    {
      assert links[k + 1] == TrimAll(linkItems)[k];
    }
  }

  /** The markup the failure path stores in `links`. */
  function AnchorFor(htmlUrl: string): (html: string)
    ensures |html| == 2 * |htmlUrl| + 31
    ensures html[..9] == "<a href=\"" && html[|html| - 4..] == "</a>"
  {
    "<a href=\"" + htmlUrl + "\" target=\"_blank\">" + htmlUrl + "</a>"
  }

  /** The record built for one repository. */
  function ProjectOf(repo: Repo, fetched: Fetched): (p: Project)
    ensures p.name == repo.name && p.htmlUrl == repo.htmlUrl
    ensures p.description == repo.description
    ensures fetched.Failed? ==> p.title == repo.name && p.technologies == []
    ensures fetched.Parsed? ==> p.links.LinkList? && p.links.urls != [] && p.links.urls[0] == repo.htmlUrl
    ensures p.title == [] ==> repo.name == []
  {
    match fetched
    case Parsed(readme) =>
      Project(repo.name, repo.htmlUrl, TitleOf(readme.titleText, repo.name),
              Technologies(readme.techsText), repo.description,
              LinkList(LinksOf(repo.htmlUrl, readme.linkItems)))
    case Failed =>
      Project(repo.name, repo.htmlUrl, repo.name, [], repo.description,
              AnchorMarkup(AnchorFor(repo.htmlUrl)))
  }

  /** On the failure path the anchor markup carries the repository URL twice:
      as the link target and as the link text. */
  lemma FailedLinksCarryUrl(repo: Repo)
    ensures var html := ProjectOf(repo, Failed).links.html;
      html[9..9 + |repo.htmlUrl|] == repo.htmlUrl
      && html[|html| - 4 - |repo.htmlUrl|..|html| - 4] == repo.htmlUrl
  {
  }

  /** A README with none of the three elements (the error page served for a
      repository without one, say) gives the repository name as title, a single
      empty technology and the repository URL as the only link. */
  lemma ReadmeWithoutElements(repo: Repo)
    ensures ProjectOf(repo, Parsed(Readme([], [], [])))
         == Project(repo.name, repo.htmlUrl, repo.name, [[]], repo.description, LinkList([repo.htmlUrl]))
  {
    TechnologiesWithoutComma([]);
  }

  /** `repos.map(...)`: one record per repository, in listing order, each
      fetched outcome paired with its repository. */
  function Projects(repos: seq<Repo>, fetched: seq<Fetched>): (ps: seq<Project>)
    requires |fetched| == |repos|
    ensures |ps| == |repos|
  {
    seq(|repos|, i requires 0 <= i < |repos| => ProjectOf(repos[i], fetched[i]))
  }

  /** The records keep the repositories' order and names, and every one of them
      keeps its description whatever happened to its README. */
  lemma ProjectsFollowRepos(repos: seq<Repo>, fetched: seq<Fetched>)
    requires |fetched| == |repos|
    ensures forall i :: 0 <= i < |repos| ==>
              Projects(repos, fetched)[i].name == repos[i].name
              && Projects(repos, fetched)[i].description == repos[i].description
    ensures forall i :: 0 <= i < |repos| && fetched[i].Failed? ==>
              Projects(repos, fetched)[i].title == repos[i].name
              && Projects(repos, fetched)[i].technologies == []
  {
  }
}
