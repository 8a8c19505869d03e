/** The rows of the tables the core routes read and write, the conditions
    and column updates the routes use on them, the invariants the design
    wants those tables to keep, and the replies the routes send. */
module Schema {
  import opened Rows

  // ---------------------------------------------------------------- cart

  /** A `cart` row: one e-book in one user's cart. */
  datatype CartItem = CartItem(userId: nat, ebookId: nat, qty: int)

  /** The qty the `cart` table gives a row whose INSERT names no qty: the
      column default, which the schema (not part of this model) sets; taken as 1. */
  const CartQtyDefault: int := 1

  /** The (user_id, ebook_id) pair a cart row is looked up by. */
  const CartKey: CartItem -> (nat, nat) := (c: CartItem) => (c.userId, c.ebookId)

  /** `SET qty = q`. */
  function WithQty(q: int): CartItem -> CartItem {
    (c: CartItem) => c.(qty := q)
  }

  /** Every cart line has a quantity of at least 1. */
  ghost predicate QtyPositive(rows: seq<Row<CartItem>>) {
    forall i :: 0 <= i < |rows| ==> rows[i].val.qty >= 1
  }

  // ------------------------------------------------------------ wishlist

  /** A `wishlist` row: a (user, e-book) membership pair. */
  datatype WishlistItem = WishlistItem(userId: nat, ebookId: nat)

  const WishlistKey: WishlistItem -> (nat, nat) := (w: WishlistItem) => (w.userId, w.ebookId)

  // ------------------------------------------------------------- address

  /** The address columns a client supplies. */
  datatype AddressFields = AddressFields(
    title: string, address: string, state: string, city: string, pincode: string, landmark: string)

  /** An `address` row. The `isDefault` column holds text: the userweb.js
      routes write 'yes' and 'no', the server.js route whatever the client sent. */
  datatype Address = Address(userId: nat, fields: AddressFields, isDefault: string)

  const AddressOwner: Address -> nat := (a: Address) => a.userId

  /** `WHERE user_id = u`. */
  function OwnedBy(u: nat): Row<Address> -> bool {
    KeyIs(AddressOwner, u)
  }

  /** `WHERE id = k AND user_id = u`. */
  function OwnAddress(u: nat, k: nat): Row<Address> -> bool {
    (r: Row<Address>) => r.id == k && r.val.userId == u
  }

  /** The rows that make `u`'s default address. */
  function DefaultOf(u: nat): Row<Address> -> bool {
    (r: Row<Address>) => r.val.userId == u && r.val.isDefault == "yes"
  }

  /** `SET isDefault = flag`. */
  function WithDefault(flag: string): Address -> Address {
    (a: Address) => a.(isDefault := flag)
  }

  /** How many addresses of `u` are flagged as default. */
  function Defaults(rows: seq<Row<Address>>, u: nat): (n: nat) {
    Count(rows, DefaultOf(u))
  }

  /** No user has two default addresses. */
  ghost predicate OneDefaultPerUser(rows: seq<Row<Address>>) {
    forall i, j :: 0 <= i < j < |rows| && rows[i].val.isDefault == "yes" && rows[j].val.isDefault == "yes" ==>
      rows[i].val.userId != rows[j].val.userId
  }

  /** The address with id `k` is one of `u`'s. */
  ghost predicate OwnsAddress(rows: seq<Row<Address>>, u: nat, k: nat) {
    exists i :: 0 <= i < |rows| && rows[i].id == k && rows[i].val.userId == u
  }

  /** Every row of a user other than `u` is where it was, as it was. */
  ghost predicate OthersUnchanged(before: seq<Row<Address>>, after: seq<Row<Address>>, u: nat) {
    |before| <= |after| &&
    forall i :: 0 <= i < |before| && before[i].val.userId != u ==> after[i] == before[i]
  }

  // ---------------------------------------------------------- test_given

  /** A `test_given` row: one user's recorded answer to one question. */
  datatype Answer = Answer(testId: nat, questionId: nat, ansId: string, userId: nat, kind: string)

  /** The (question_id, user_id) pair an answer is looked up by. */
  const AnswerKey: Answer -> (nat, nat) := (a: Answer) => (a.questionId, a.userId)

  /** `SET ans_id = ans, type = kind`. */
  function WithAnswer(ans: string, kind: string): Answer -> Answer {
    (a: Answer) => a.(ansId := ans, kind := kind)
  }

  // ----------------------------------------------------------- readebook

  /** A `readebook` row: how far a user has read an e-book. */
  datatype Progress = Progress(userId: nat, ebookId: nat, pageNo: nat)

  const ProgressKey: Progress -> (nat, nat) := (p: Progress) => (p.userId, p.ebookId)

  /** `SET page_no = page`. */
  function WithPage(page: nat): Progress -> Progress {
    (p: Progress) => p.(pageNo := page)
  }

  // --------------------------------------------------------------- users

  /** A `users` row, with the columns the core routes write. `password`
      holds the bcrypt hash. `profile` is the column registration writes,
      `profilePicture` the one a profile edit writes. */
  datatype User = User(
    firstName: string, lastName: string, phone: string, password: string,
    email: Option<string>, profile: Option<string>, profilePicture: Option<string>)

  /** Phone numbers are unique, and so are the e-mail addresses that are set. */
  ghost predicate UniqueContacts(rows: seq<Row<User>>) {
    forall i, j :: 0 <= i < j < |rows| ==>
      rows[i].val.phone != rows[j].val.phone &&
      (rows[i].val.email.Some? ==> rows[i].val.email != rows[j].val.email)
  }

  const UserPhone: User -> string := (u: User) => u.phone

  /** `WHERE phone = p`. */
  function ByPhone(p: string): Row<User> -> bool {
    KeyIs(UserPhone, p)
  }

  /** `WHERE email = e`; a NULL email equals nothing. */
  function ByEmail(e: string): Row<User> -> bool {
    (r: Row<User>) => r.val.email == Some(e)
  }

  // --------------------------------------------------------- test_timing

  /** A `test_timing` row: one start of one test by one user. */
  datatype TestTiming = TestTiming(userId: nat, testId: nat, startTime: string)

  const TimingKey: TestTiming -> (nat, nat) := (t: TestTiming) => (t.userId, t.testId)

  // --------------------------------------------------------------- blogs

  /** A `blogs` row. */
  datatype Blog = Blog(image: string, title: string, publishedBy: string, description: string)

  // ------------------------------------------------------------- replies

  /** What a route sends back: a JSON object with an HTTP status code, an
      optional `status` flag and a `message`; such an object that also carries
      a user row as `details`; the `{ qty }` object of the quantity route; a
      plain-text body; or nothing at all, when the handler returns without
      answering or throws outside its error handling. */
  datatype Reply =
    | Json(code: nat, status: Option<bool>, message: string)
    | UserJson(code: nat, ok: bool, message: string, details: Row<User>)
    | QtyJson(qty: int)
    | Text(body: string)
    | NoReply

  /** `res.json({ message })`. */
  function Message(text: string): Reply {
    Json(200, None, text)
  }

  /** `res.status(code).json({ status, message })`. */
  function Status(code: nat, status: bool, message: string): Reply {
    Json(code, Some(status), message)
  }
}
