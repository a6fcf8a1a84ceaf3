/** The records the dashboard exchanges (src/types/index.ts): the image record produced by the
    worker's listing and the directory node the UI receives. */
module Types {

  datatype Option<T> = None | Some(value: T)

  /** One stored image: `id` is the full slash-delimited key, `filename` its display name
      (`None` when the listing gives none and the id ends in a separator). */
  datatype Image = Image(
    id: string,
    filename: Option<string>,
    uploadedDate: string,
    size: Option<int>,
    requireSignedURLs: bool)

  /** A directory node as a value: the JSON tree the browser holds. `subdirs` is always present
      here, because every node the worker builds carries both arrays. */
  datatype Dir = Dir(name: string, path: string, subdirs: seq<Dir>, images: seq<Image>)

  /** A prefix one element longer is the prefix and that element. */
  lemma TakeOneMore<T>(s: seq<T>, j: nat)
    requires j < |s|
    ensures s[..j + 1] == s[..j] + [s[j]]
  {
  }

  /** A suffix starts with its first element and goes on with the next suffix. */
  lemma DropOne<T>(s: seq<T>, j: nat)
    requires j < |s|
    ensures s[j..][0] == s[j] && s[j..][1..] == s[j + 1..]
  {
  }

  /** A non-empty sequence is its front and its last element. */
  lemma FrontLast<T>(s: seq<T>)
    requires |s| >= 1
    ensures s == s[..|s| - 1] + [s[|s| - 1]]
  {
  }
}
