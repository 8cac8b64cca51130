/** SHA-256 over canonical JSON, as far as the ledgers depend on it. */
module Hashing {

  /**
   * sha is any function to 64 hexadecimal characters and canonical the JSON text of a hashed object, which determines
   * the object. Collision freedom is nowhere assumed: results say "equal contents, or these two texts collide".
   */
  datatype Hasher<!T(!new)> = Hasher(canonical: T -> string, sha: string -> string) {
    ghost predicate Valid() {
      && (forall x, y :: canonical(x) == canonical(y) ==> x == y)
      && (forall s :: |sha(s)| == 64)
    }

    function Of(x: T): string {
      sha(canonical(x))
    }
  }

  ghost predicate Collision(sha: string -> string, x: string, y: string) {
    x != y && sha(x) == sha(y)
  }
}
