/** The records of `lib/docs.ts`: pages, references, project metadata and summaries. */
module DocTypes {
  import opened Wrappers

  /** A content section of a page; `title` is optional. */
  datatype PageNote = PageNote(title: Option<string>, content: string)

  /** A link shown under a page's key references. */
  datatype Reference = Reference(url: string, placeholder: string)

  /** A stored page; `parent` names another page by its title. */
  datatype DocPage = DocPage(
    title: string,
    purpose: string,
    parent: Option<string>,
    references: Option<seq<Reference>>,
    pageNotes: seq<PageNote>)

  datatype ProjectMetadata = ProjectMetadata(
    title: Option<string>,
    description: Option<string>,
    tags: Option<seq<string>>,
    projectType: Option<string>)

  /** The JSON document stored per project. */
  datatype DocProject = DocProject(metadata: Option<ProjectMetadata>, pages: seq<DocPage>)

  /** One card of the project listing. The listing tolerates a missing `tags` list. */
  datatype ProjectSummary = ProjectSummary(
    slug: string,
    title: string,
    description: string,
    projectType: string,
    tags: Option<seq<string>>)
}
