/** The rows of the four tables (app.py's SQLAlchemy models), as values.
    Timestamps are integers (seconds since an epoch); `None` stands for SQL NULL. */
module Entities {

  datatype Option<+T> = None | Some(value: T)

  /** A community ("subllmit"); `name` is UNIQUE and NOT NULL in the schema. */
  datatype Subllmit = Subllmit(id: int, name: string)

  /** A row of `posts`. `groupName` refers to a subllmit by name, not by id. */
  datatype Post = Post(
    id: int,
    groupName: string,
    title: string,
    content: Option<string>,
    imageUrl: Option<string>,
    upvotes: int,
    downvotes: int,
    isAiGenerated: bool,
    timestamp: int,
    userId: Option<int>)

  /** A row of `comments`. `parentId == None` marks a top-level comment. */
  datatype Comment = Comment(
    id: int,
    postId: int,
    parentId: Option<int>,
    content: string,
    upvotes: int,
    downvotes: int,
    isAiGenerated: bool,
    timestamp: int,
    userId: Option<int>)

  /** HTTP status codes the handlers answer with. */
  const OK := 200
  const CREATED := 201
  const BAD_REQUEST := 400
  const NOT_FOUND := 404
  const SERVER_ERROR := 500
}
