/** The records the client receives from the server or its bundled data,
    reduced to the fields the modelled logic reads. */
module Entities {
  import opened Common

  /** An article as the articles API returns it. */
  datatype Article = Article(
    id: String,
    category: String,
    title: String,
    description: String,
    code: String,
    slug: String,
    likes: int)

  /** A portfolio project from the bundled project list. */
  datatype Project = Project(
    title: String,
    description: String,
    technologies: seq<String>,
    image: String)
}
