/** The Post entity as the post resolver sees it, and the `textSnippet` field resolver. */
module Posts {

  datatype Option<T> = None | Some(value: T)

  /** The outcome of a resolver call that the database may reject. */
  datatype Result<T> = Ok(value: T) | Failure(error: string)

  /** A row of the `post` table. Timestamps are milliseconds since the epoch. */
  datatype Post = Post(
    id: int,
    title: string,
    text: string,
    points: int,
    creatorId: int,
    createdAt: int)

  /** The `PostInput` argument of `createPost`. */
  datatype PostInput = PostInput(title: string, text: string, points: int)

  /** Number of characters kept by `textSnippet`. */
  const SnippetLength: nat := 100

  /** `root.text.slice(0, 100)`: the first 100 characters of the text, or all of
      it when it is shorter. */
  function TextSnippet(root: Post): (r: string)
    ensures r <= root.text
    ensures |r| == if |root.text| < SnippetLength then |root.text| else SnippetLength
  {
    if |root.text| <= SnippetLength then root.text else root.text[..SnippetLength]
  }
}
