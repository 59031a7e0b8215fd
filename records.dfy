/**
 * The rows of the user, item and post tables (model/user.go, model/item.go,
 * model/post.go), restricted to the columns the handlers read or write, and
 * the request bodies the handlers parse into them.
 */
module Records {

  /** Go strings are byte strings: `len` counts bytes. */
  newtype byte = x: int | 0 <= x < 256
  type Bytes = seq<byte>

  /** The bytes of a literal written in single-byte characters (each character's low byte). */
  function Ascii(s: string): (b: Bytes)
    ensures |b| == |s|
    ensures forall i :: 0 <= i < |s| && s[i] as int < 256 ==> b[i] as int == s[i] as int
  {
    seq(|s|, i requires 0 <= i < |s| => (s[i] as int % 256) as byte)
  }

  /** A user row; `password` holds the bcrypt hash, never the plaintext. */
  datatype User = User(id: nat, username: Bytes, email: Bytes, password: Bytes)

  /** A float64 price, carried as its bit pattern: the handlers only copy it. */
  datatype Price = Price(bits: bv64)

  /** An item row; `userId` is the owner, `categoryId` the category. */
  datatype Item = Item(id: nat, name: string, description: string, price: Price, categoryId: nat, userId: nat)

  /** A post row; `userId` is its author. */
  datatype Post = Post(id: nat, title: string, body: string, userId: nat)

  /** A JSON body parsed into model.User by Register. */
  datatype RegisterInput = RegisterInput(username: Bytes, email: Bytes, password: Bytes)

  /** A JSON body parsed into LoginInput by Login. */
  datatype LoginInput = LoginInput(identity: Bytes, password: Bytes)

  /** A JSON body parsed into model.Item by CreateItem and UpdateItem; `userId` is whatever the client sent. */
  datatype ItemInput = ItemInput(name: string, description: string, price: Price, categoryId: nat, userId: nat)

  /** A JSON body parsed into model.Post by CreatePost. */
  datatype PostInput = PostInput(title: string, body: string, userId: nat)
}
