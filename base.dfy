/** Shared vocabulary of the image gallery: identifiers, the stored image and user
    records, and the Option/Result wrappers used for JavaScript's `undefined` and
    for lookups that throw. */
module Base {

  datatype Option<T> = None | Some(value: T)

  datatype Result<T, E> = Ok(value: T) | Err(error: E)

  type ImageId = int
  type UserId = int
  type SpaceId = int

  /** An image record as kept in the store's `items` dictionary: `created_at` is in
      seconds, `thumbsnails` lists the renditions that exist. */
  datatype Image = Image(id: ImageId, createdAt: int, ownerUserId: UserId, key: string, thumbsnails: seq<string>)

  /** A user record as kept in the store's `users` dictionary. */
  datatype User = User(fullName: string)

  /** No element occurs twice. */
  predicate Distinct<T(==)>(s: seq<T>)
  {
    forall i, j :: 0 <= i < j < |s| ==> s[i] != s[j]
  }
}
