/** The part of the GitHub API the mirror consumes: a repository listing,
    one page at a time, authenticated by a token that is not modelled. */
module GitHub {
  /** One repository of the listing; only the two fields the mirror reads. */
  datatype Repo = Repo(fullName: string, cloneURL: string)

  /** The answer to one `Repositories.List` call: a transport or API error,
      or the page's repositories and the server-reported next page
      (go-github reports 0 when there is none). */
  datatype Response =
    | ListError(message: string)
    | Listed(items: seq<Repo>, nextPage: int)

  /** The server, as a function from the requested page number to its answer. */
  type Server = int -> Response
}
