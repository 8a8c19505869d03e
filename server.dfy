/** The routes of server.js the core covers: registration, profile editing
    and login over the `users` table, the e-mail/phone availability check,
    and the plain inserts and deletes on `cart`, `wishlist`, `address`,
    `test_timing` and `test_given`. Every route validates its parameters
    first; a missing or falsy parameter is `None` (an id) or "" (a text). */
module Server {
  import opened Rows
  import opened Schema
  import opened Database

  // ------------------------------------------------------- request body

  /** `req.body[name]`, with "" for a field the body does not carry. */
  function Field(body: map<string, string>, name: string): (v: string) {
    if name in body then body[name] else ""
  }

  /** JavaScript truthiness of a text field: present and non-empty. */
  predicate Present(body: map<string, string>, name: string) {
    Field(body, name) != ""
  }

  /** The fields registration demands, in the order it checks them. */
  const RequiredFields: seq<string> := ["first_name", "last_name", "phone", "password"]

  /** The position of the first of `fields` the body lacks. */
  function FirstAbsent(body: map<string, string>, fields: seq<string>): (r: Option<nat>)
    ensures r.Some? ==> r.value < |fields| && !Present(body, fields[r.value])
    ensures r.Some? ==> forall j :: 0 <= j < r.value ==> Present(body, fields[j])
    ensures r.None? <==> forall j :: 0 <= j < |fields| ==> Present(body, fields[j])
  {
    if fields == [] then None
    else if !Present(body, fields[0]) then Some(0)
    else match FirstAbsent(body, fields[1..])
      case None => None
      case Some(k) => Some(k + 1)
  }

  /** The `for` loop over the required fields: the position of the first one
      missing from the body, if any. */
  method FirstMissing(body: map<string, string>) returns (missing: Option<nat>)
    ensures missing == FirstAbsent(body, RequiredFields)
    ensures missing.Some? ==> missing.value < |RequiredFields| && !Present(body, RequiredFields[missing.value])
    ensures missing.None? ==> forall j :: 0 <= j < |RequiredFields| ==> Present(body, RequiredFields[j])
  {
    for i := 0 to |RequiredFields|
      invariant forall j :: 0 <= j < i ==> Present(body, RequiredFields[j])
    {
      if !Present(body, RequiredFields[i]) {
        return Some(i);
      }
    }
    return None;
  }

  /** `s.replace(a, b)` with a one-character pattern: only the first
      occurrence of `a` becomes `b`. */
  function ReplaceFirst(s: string, a: char, b: char): (r: string)
    ensures |r| == |s|
    ensures forall i :: 0 <= i < |s| && s[i] != a ==> r[i] == s[i]
    ensures forall i :: 0 <= i < |s| && s[i] == a ==> r[i] == (if forall j :: 0 <= j < i ==> s[j] != a then b else a)
  {
    if s == [] then []
    else if s[0] == a then [b] + s[1..]
    else [s[0]] + ReplaceFirst(s[1..], a, b)
  }

  /** The 400 message for a missing required field. */
  function RequiredMessage(field: string): (msg: string) {
    ReplaceFirst(field, '_', ' ') + " is required."
  }

  // -------------------------------------------------------- /insertUser

  /** `email = ?` with `email || null`: an absent e-mail becomes NULL, which no
      row's e-mail equals. */
  function PhoneOrEmail(phone: string, email: string): Row<User> -> bool {
    (r: Row<User>) => r.val.phone == phone || (email != "" && r.val.email == Some(email))
  }

  /** The user a successful registration stores. */
  function NewUser(firstName: string, lastName: string, phone: string, hashed: string, email: string, picture: string): (u: User) {
    User(firstName, lastName, phone, hashed,
         if email != "" then Some(email) else None,
         if picture != "" then Some("uploads/" + picture) else None,
         None)
  }

  /** The value an INSERT's column list gives column `name`: the value at the
      first position the column is named, or NULL when it is not named. */
  function ValueOf(columns: seq<string>, values: seq<string>, name: string): (r: Option<string>)
    requires |columns| == |values|
    ensures r.None? <==> name !in columns
    ensures r.Some? ==> exists i :: 0 <= i < |columns| && columns[i] == name && r.value == values[i]
    ensures (forall i, j :: 0 <= i < j < |columns| ==> columns[i] != columns[j]) ==>
      forall i :: 0 <= i < |columns| && columns[i] == name ==> r == Some(values[i])
  {
    if columns == [] then None
    else if columns[0] == name then Some(values[0])
    else
      var r := ValueOf(columns[1..], values[1..], name);
      assert forall i :: 0 < i < |columns| ==> columns[i] == columns[1..][i - 1] && values[i] == values[1..][i - 1];
      r
  }

  /** The `users` row an `INSERT INTO users (columns) VALUES (values)` creates. */
  function InsertedUser(columns: seq<string>, values: seq<string>): (u: User)
    requires |columns| == |values|
  {
    User(ValueOf(columns, values, "first_name").GetOr(""),
         ValueOf(columns, values, "last_name").GetOr(""),
         ValueOf(columns, values, "phone").GetOr(""),
         ValueOf(columns, values, "password").GetOr(""),
         ValueOf(columns, values, "email"),
         ValueOf(columns, values, "profile"),
         ValueOf(columns, values, "profile_picture"))
  }

  /** The registration INSERT's column list: the four required columns,
      then `email` when one was given, then `profile` when a picture was
      uploaded. */
  function UserColumns(email: string, picture: string): (c: seq<string>)
    ensures |c| >= 4 && c[..4] == RequiredFields
    ensures ("email" in c <==> email != "") && ("profile" in c <==> picture != "")
    ensures forall i, j :: 0 <= i < j < |c| ==> c[i] != c[j]
  {
    RequiredFields + (if email != "" then ["email"] else []) + (if picture != "" then ["profile"] else [])
  }

  /** The registration INSERT's value list, position by position with
      `UserColumns`. */
  function UserValues(firstName: string, lastName: string, phone: string, hashed: string, email: string, picture: string): (v: seq<string>)
    ensures |v| == |UserColumns(email, picture)|
  {
    [firstName, lastName, phone, hashed] + (if email != "" then [email] else []) + (if picture != "" then ["uploads/" + picture] else [])
  }

  /** The INSERT built from the two lists stores the intended user: every
      value lands in the column it is listed against, and a column not named
      is NULL. */
  lemma UserInsertRoundTrip(firstName: string, lastName: string, phone: string, hashed: string, email: string, picture: string)
    ensures InsertedUser(UserColumns(email, picture), UserValues(firstName, lastName, phone, hashed, email, picture)) ==
      NewUser(firstName, lastName, phone, hashed, email, picture)
  {
    var c := UserColumns(email, picture);
    var v := UserValues(firstName, lastName, phone, hashed, email, picture);
    assert c[0] == "first_name" && c[1] == "last_name" && c[2] == "phone" && c[3] == "password";
    assert v[0] == firstName && v[1] == lastName && v[2] == phone && v[3] == hashed;
    assert "profile_picture" !in c;
    if email != "" {
      assert c[4] == "email" && v[4] == email;
    }
    if picture != "" {
      assert c[|c| - 1] == "profile" && v[|v| - 1] == "uploads/" + picture;
    }
  }

  /** The pushes that build the registration INSERT's column, placeholder and
      value lists; the lists stay the same length and every placeholder is
      `?`. */
  method BuildUserInsert(firstName: string, lastName: string, phone: string, hashed: string, email: string, picture: string)
    returns (columns: seq<string>, placeholders: seq<string>, values: seq<string>)
    ensures columns == UserColumns(email, picture)
    ensures values == UserValues(firstName, lastName, phone, hashed, email, picture)
    ensures |placeholders| == |columns| && forall i :: 0 <= i < |placeholders| ==> placeholders[i] == "?"
  {
    columns := ["first_name", "last_name", "phone", "password"];
    placeholders := ["?", "?", "?", "?"];
    values := [firstName, lastName, phone, hashed];
    if email != "" {
      columns := columns + ["email"];
      placeholders := placeholders + ["?"];
      values := values + [email];
    }
    if picture != "" {
      columns := columns + ["profile"];
      placeholders := placeholders + ["?"];
      values := values + ["uploads/" + picture];
    }
  }

  /** A registration that passed the duplicate check keeps phones and e-mails
      unique. */
  lemma RegisterKeepsUniqueContacts(rows: seq<Row<User>>, x: Row<User>, email: string)
    requires UniqueContacts(rows)
    requires x.val.email == (if email != "" then Some(email) else None)
    requires Count(rows, PhoneOrEmail(x.val.phone, email)) == 0
    ensures UniqueContacts(rows + [x])
  {
    var after := rows + [x];
    forall i, j | 0 <= i < j < |after|
      ensures after[i].val.phone != after[j].val.phone
      ensures after[i].val.email.Some? ==> after[i].val.email != after[j].val.email
    {
      assert after[i] == rows[i];
      if j == |rows| {
        assert !PhoneOrEmail(x.val.phone, email)(rows[i]);
      } else {
        assert after[j] == rows[j];
      }
    }
  }

  /** `/insertUser`: checks the required fields in order, rejects a phone or
      e-mail already registered, then inserts the user with the bcrypt hash
      `hashed` of the password and the uploaded picture's name `picture`
      ("" when there is none). */
  method InsertUser(users: Table<User>, body: map<string, string>, hashed: string, picture: string) returns (reply: Reply)
    requires users.Valid()
    modifies users
    ensures users.Valid()
    ensures FirstAbsent(body, RequiredFields).Some? ==>
      && users.rows == old(users.rows) && users.next == old(users.next)
      && reply == Status(400, false, RequiredMessage(RequiredFields[FirstAbsent(body, RequiredFields).value]))
    ensures FirstAbsent(body, RequiredFields).None? && Count(old(users.rows), PhoneOrEmail(Field(body, "phone"), Field(body, "email"))) > 0 ==>
      users.rows == old(users.rows) && users.next == old(users.next) && reply == Status(400, false, "Phone or email is already registered.")
    ensures FirstAbsent(body, RequiredFields).None? && Count(old(users.rows), PhoneOrEmail(Field(body, "phone"), Field(body, "email"))) == 0 ==>
      && users.rows == old(users.rows) + [Row(old(users.next), NewUser(Field(body, "first_name"), Field(body, "last_name"),
                                                                  Field(body, "phone"), hashed, Field(body, "email"), picture))]
      && users.next == old(users.next) + 1
      && reply == Status(200, true, "User registered successfully.")
    ensures UniqueContacts(old(users.rows)) ==> UniqueContacts(users.rows)
  {
    var missing := FirstMissing(body);
    if missing.Some? {
      return Status(400, false, RequiredMessage(RequiredFields[missing.value]));
    }
    var phone := Field(body, "phone");
    var email := Field(body, "email");
    var existingUsers := users.Select(PhoneOrEmail(phone, email));
    if |existingUsers| > 0 {
      return Status(400, false, "Phone or email is already registered.");
    }
    var columns, placeholders, values := BuildUserInsert(Field(body, "first_name"), Field(body, "last_name"), phone, hashed, email, picture);
    UserInsertRoundTrip(Field(body, "first_name"), Field(body, "last_name"), phone, hashed, email, picture);
    ghost var before := users.rows;
    var insertId := users.Insert(InsertedUser(columns, values));
    if UniqueContacts(before) {
      RegisterKeepsUniqueContacts(before, Row(insertId, InsertedUser(columns, values)), email);
    }
    reply := Status(200, true, "User registered successfully.");
  }

  // ------------------------------------------------------- /editProfile

  /** One entry of the SET list a profile edit builds. */
  datatype ProfileUpdate =
    | SetFirstName(firstName: string)
    | SetLastName(lastName: string)
    | SetProfilePicture(path: string)

  /** An entry's place in the SET list: first name, last name, picture. */
  function Rank(u: ProfileUpdate): nat {
    match u
    case SetFirstName(_) => 0
    case SetLastName(_) => 1
    case SetProfilePicture(_) => 2
  }

  function Apply(u: User, e: ProfileUpdate): User {
    match e
    case SetFirstName(n) => u.(firstName := n)
    case SetLastName(n) => u.(lastName := n)
    case SetProfilePicture(p) => u.(profilePicture := Some(p))
  }

  /** `UPDATE users SET <updates>`: the entries applied in order. */
  function ApplyAll(u: User, updates: seq<ProfileUpdate>): (r: User)
    ensures r.phone == u.phone && r.password == u.password && r.email == u.email && r.profile == u.profile
    decreases updates
  {
    if updates == [] then u else ApplyAll(Apply(u, updates[0]), updates[1..])
  }

  /** The SET list for the given fields: one entry per non-empty field, in
      the order first name, last name, picture. */
  function ProfileUpdates(firstName: string, lastName: string, picture: string): (r: seq<ProfileUpdate>)
    ensures |r| == 0 <==> firstName == "" && lastName == "" && picture == ""
    ensures forall i, j :: 0 <= i < j < |r| ==> Rank(r[i]) < Rank(r[j])
    ensures SetFirstName(firstName) in r <==> firstName != ""
    ensures SetLastName(lastName) in r <==> lastName != ""
    ensures SetProfilePicture("uploads/" + picture) in r <==> picture != ""
    ensures forall i :: 0 <= i < |r| ==> r[i] in [SetFirstName(firstName), SetLastName(lastName), SetProfilePicture("uploads/" + picture)]
  {
    (if firstName != "" then [SetFirstName(firstName)] else [])
    + (if lastName != "" then [SetLastName(lastName)] else [])
    + (if picture != "" then [SetProfilePicture("uploads/" + picture)] else [])
  }

  /** Applying two lists one after the other is applying their concatenation. */
  lemma {:induction false} ApplyAllAppend(u: User, a: seq<ProfileUpdate>, b: seq<ProfileUpdate>)
    ensures ApplyAll(u, a + b) == ApplyAll(ApplyAll(u, a), b)
    decreases a
  {
    if a == [] {
      assert a + b == b;
    } else {
      assert (a + b)[1..] == a[1..] + b;
      ApplyAllAppend(Apply(u, a[0]), a[1..], b);
    }
  }

  /** The profile edit rewrites exactly the given fields: the names to the
      values sent, the picture to its upload path; everything else stays. */
  lemma ApplyProfileUpdates(u: User, firstName: string, lastName: string, picture: string)
    ensures ApplyAll(u, ProfileUpdates(firstName, lastName, picture)) ==
      u.(firstName := if firstName != "" then firstName else u.firstName,
         lastName := if lastName != "" then lastName else u.lastName,
         profilePicture := if picture != "" then Some("uploads/" + picture) else u.profilePicture)
  {
    var a := if firstName != "" then [SetFirstName(firstName)] else [];
    var b := if lastName != "" then [SetLastName(lastName)] else [];
    var c := if picture != "" then [SetProfilePicture("uploads/" + picture)] else [];
    ApplyAllAppend(u, a + b, c);
    ApplyAllAppend(u, a, b);
    assert ApplyAll(u, a) == (if firstName != "" then u.(firstName := firstName) else u) by {
      if firstName != "" { assert a[1..] == []; }
    }
    var ua := ApplyAll(u, a);
    assert ApplyAll(ua, b) == (if lastName != "" then ua.(lastName := lastName) else ua) by {
      if lastName != "" { assert b[1..] == []; }
    }
    var ub := ApplyAll(ua, b);
    assert ApplyAll(ub, c) == (if picture != "" then ub.(profilePicture := Some("uploads/" + picture)) else ub) by {
      if picture != "" { assert c[1..] == []; }
    }
  }

  /** The pushes that build the SET list. */
  method BuildProfileUpdates(firstName: string, lastName: string, picture: string) returns (updates: seq<ProfileUpdate>)
    ensures updates == ProfileUpdates(firstName, lastName, picture)
  {
    updates := [];
    if firstName != "" {
      updates := updates + [SetFirstName(firstName)];
    }
    if lastName != "" {
      updates := updates + [SetLastName(lastName)];
    }
    if picture != "" {
      updates := updates + [SetProfilePicture("uploads/" + picture)];
    }
  }

  /** The column rewrite an UPDATE with the SET list performs. */
  function Edit(updates: seq<ProfileUpdate>): User -> User {
    (u: User) => ApplyAll(u, updates)
  }

  /** `/editProfile`: finds the user by phone, applies the SET list built
      from the non-empty fields and answers with the user's row as stored
      afterwards. */
  method EditProfile(users: Table<User>, phone: string, firstName: string, lastName: string, picture: string) returns (reply: Reply)
    requires users.Valid()
    modifies users
    ensures users.Valid()
    ensures users.next == old(users.next)
    ensures phone == "" ==> users.rows == old(users.rows) && reply == Status(400, false, "Phone is required.")
    ensures phone != "" && Count(old(users.rows), ByPhone(phone)) == 0 ==>
      users.rows == old(users.rows) && reply == Status(400, false, "User not found with the given phone number.")
    ensures phone != "" && Count(old(users.rows), ByPhone(phone)) > 0 && firstName == "" && lastName == "" && picture == "" ==>
      users.rows == old(users.rows) && reply == Status(200, false, "No changes detected.")
    ensures phone != "" && Count(old(users.rows), ByPhone(phone)) > 0 && !(firstName == "" && lastName == "" && picture == "") ==>
      && users.rows == Update(old(users.rows), ByPhone(phone), Edit(ProfileUpdates(firstName, lastName, picture)))
      && First(users.rows, ByPhone(phone)).Some?
      && reply == UserJson(200, true, "Profile updated successfully.", users.rows[First(users.rows, ByPhone(phone)).value])
    ensures UniqueContacts(old(users.rows)) ==> UniqueContacts(users.rows)
  {
    if phone == "" {
      return Status(400, false, "Phone is required.");
    }
    var existingUsers := users.Select(ByPhone(phone));
    if |existingUsers| <= 0 {
      return Status(400, false, "User not found with the given phone number.");
    }
    var updates := BuildProfileUpdates(firstName, lastName, picture);
    ghost var before := users.rows;
    if |updates| > 0 {
      var _ := users.Update(ByPhone(phone), Edit(updates));
    } else {
      return Status(200, false, "No changes detected.");
    }
    assert forall v :: UserPhone(Edit(updates)(v)) == UserPhone(v);
    CountUpdateSameKey(before, UserPhone, phone, ByPhone(phone), Edit(updates));
    EditKeepsUniqueContacts(before, ByPhone(phone), updates);
    var userDetails := users.Select(ByPhone(phone));
    SelectHeadIsFirst(users.rows, ByPhone(phone));
    reply := UserJson(200, true, "Profile updated successfully.", userDetails[0]);
  }

  /** A profile edit leaves phones and e-mails as they were, so it keeps
      them unique. */
  lemma EditKeepsUniqueContacts(rows: seq<Row<User>>, p: Row<User> -> bool, updates: seq<ProfileUpdate>)
    ensures UniqueContacts(rows) ==> UniqueContacts(Update(rows, p, Edit(updates)))
  {
    var after := Update(rows, p, Edit(updates));
    forall i | 0 <= i < |rows| ensures after[i].val.phone == rows[i].val.phone && after[i].val.email == rows[i].val.email {
      if p(rows[i]) {
        assert after[i].val == ApplyAll(rows[i].val, updates);
      }
    }
  }

  // --------------------------------------------------------- /loginUser

  /** `/loginUser`: the reply for a phone and password, given the users
      table and bcrypt's `compare(plain, hash)`. The first user with the
      phone is the one checked. */
  function LoginUser(users: seq<Row<User>>, phone: string, password: string, compare: (string, string) -> bool): (r: Reply)
    ensures r == Status(400, false, "Phone and password are required.") <==> phone == "" || password == ""
    ensures r == Status(401, false, "Phone not registered.") <==>
      phone != "" && password != "" && Count(users, ByPhone(phone)) == 0
    ensures r == Status(401, false, "Incorrect password.") <==>
      phone != "" && password != "" && First(users, ByPhone(phone)).Some? &&
      !compare(password, users[First(users, ByPhone(phone)).value].val.password)
    ensures r.UserJson? <==>
      phone != "" && password != "" && First(users, ByPhone(phone)).Some? &&
      compare(password, users[First(users, ByPhone(phone)).value].val.password)
    ensures r.UserJson? ==>
      r == UserJson(200, true, "Login successful.", users[First(users, ByPhone(phone)).value]) &&
      r.details.val.phone == phone
  {
    if phone == "" || password == "" then Status(400, false, "Phone and password are required.")
    else match First(users, ByPhone(phone))
      case Some(i) =>
        if compare(password, users[i].val.password) then UserJson(200, true, "Login successful.", users[i])
        else Status(401, false, "Incorrect password.")
      case None => Status(401, false, "Phone not registered.")
  }

  /** With unique phones, login succeeds exactly for the one user holding
      the phone, when the password matches that user's hash. */
  lemma LoginFindsTheUser(users: seq<Row<User>>, j: nat, password: string, compare: (string, string) -> bool)
    requires UniqueContacts(users)
    requires j < |users| && users[j].val.phone != "" && password != ""
    ensures var r := LoginUser(users, users[j].val.phone, password, compare);
      && (r.UserJson? <==> compare(password, users[j].val.password))
      && (r.UserJson? ==> r.details == users[j])
  {
    var phone := users[j].val.phone;
    assert ByPhone(phone)(users[j]);
    forall k | 0 <= k < |users| && k != j ensures users[k].val.phone != phone {
      if k < j {
        assert users[k].val.phone != users[j].val.phone;
      } else {
        assert users[j].val.phone != users[k].val.phone;
      }
    }
    var i := First(users, ByPhone(phone)).value;
    assert ByPhone(phone)(users[i]);
  }

  // ------------------------------------------------ /checkPhoneandEmail

  /** `/checkPhoneandEmail`: whether an e-mail and a phone are both still
      free, the e-mail being checked first. */
  function CheckPhoneAndEmail(users: seq<Row<User>>, email: string, phone: string): (r: Reply)
    ensures r == Status(400, false, "Both email and phone are required.") <==> email == "" || phone == ""
    ensures r == Status(200, false, "Email already registered.") <==>
      email != "" && phone != "" && Count(users, ByEmail(email)) > 0
    ensures r == Status(200, false, "Phone already registered.") <==>
      email != "" && phone != "" && Count(users, ByEmail(email)) == 0 && Count(users, ByPhone(phone)) > 0
    ensures r == Status(200, true, "Success") <==>
      email != "" && phone != "" && Count(users, ByEmail(email)) == 0 && Count(users, ByPhone(phone)) == 0
  {
    if email == "" || phone == "" then Status(400, false, "Both email and phone are required.")
    else if Count(users, ByEmail(email)) > 0 then Status(200, false, "Email already registered.")
    else if Count(users, ByPhone(phone)) > 0 then Status(200, false, "Phone already registered.")
    else Status(200, true, "Success")
  }

  /** An e-mail and phone the availability check reports free pass the
      duplicate check of registration. */
  lemma CheckedContactsRegister(users: seq<Row<User>>, email: string, phone: string)
    requires CheckPhoneAndEmail(users, email, phone) == Status(200, true, "Success")
    ensures Count(users, PhoneOrEmail(phone, email)) == 0
  {
    forall i | 0 <= i < |users| ensures !PhoneOrEmail(phone, email)(users[i]) {
      assert !ByEmail(email)(users[i]);
      assert !ByPhone(phone)(users[i]);
    }
  }

  // ------------------------------------------------------------- /addCart

  /** `/addCart`: inserts a cart line with quantity 1, whether or not the
      user already has one for the book. */
  method AddCart(cart: Table<CartItem>, userId: Option<nat>, bookId: Option<nat>) returns (reply: Reply)
    requires cart.Valid()
    modifies cart
    ensures cart.Valid()
    ensures userId.None? || bookId.None? ==>
      cart.rows == old(cart.rows) && cart.next == old(cart.next) && reply == Status(400, false, "User ID and Book ID are required.")
    ensures userId.Some? && bookId.Some? ==>
      && cart.rows == old(cart.rows) + [Row(old(cart.next), CartItem(userId.value, bookId.value, 1))]
      && cart.next == old(cart.next) + 1
      && Count(cart.rows, KeyIs(CartKey, (userId.value, bookId.value))) == Count(old(cart.rows), KeyIs(CartKey, (userId.value, bookId.value))) + 1
      && reply == Status(200, true, "Added to cart successfully")
    ensures QtyPositive(old(cart.rows)) ==> QtyPositive(cart.rows)
  {
    if userId.None? || bookId.None? {
      return Status(400, false, "User ID and Book ID are required.");
    }
    ghost var before := cart.rows;
    var id := cart.Insert(CartItem(userId.value, bookId.value, 1));
    CountAppend(before, Row(id, CartItem(userId.value, bookId.value, 1)), KeyIs(CartKey, (userId.value, bookId.value)));
    reply := Status(200, true, "Added to cart successfully");
  }

  /** Two `/addCart` requests for the same user and book leave two lines for
      the pair: the cart's (user, e-book) uniqueness is lost. */
  method AddCartTwice(cart: Table<CartItem>, userId: nat, bookId: nat)
    requires cart.Valid()
    modifies cart
    ensures cart.Valid()
    ensures Count(cart.rows, KeyIs(CartKey, (userId, bookId))) == Count(old(cart.rows), KeyIs(CartKey, (userId, bookId))) + 2
    ensures !UniqueKey(cart.rows, CartKey)
  {
    ghost var before := cart.rows;
    ghost var n := cart.next;
    var _ := AddCart(cart, Some(userId), Some(bookId));
    var _ := AddCart(cart, Some(userId), Some(bookId));
    InsertTwiceDuplicates(before, CartKey, Row(n, CartItem(userId, bookId, 1)), Row(n + 1, CartItem(userId, bookId, 1)));
  }

  // ---------------------------------------------- /deleteCart, /deleteFav

  /** `/deleteCart`: deletes the cart line with the given id. */
  method DeleteCart(cart: Table<CartItem>, id: Option<nat>) returns (reply: Reply)
    requires cart.Valid()
    modifies cart
    ensures cart.Valid()
    ensures cart.next == old(cart.next)
    ensures id.None? ==> cart.rows == old(cart.rows) && cart.next == old(cart.next) && reply == Status(400, false, "ID is required.")
    ensures id.Some? ==> cart.rows == Delete(old(cart.rows), HasId(id.value))
    ensures reply == Status(200, true, "Deleted from cart successfully") <==>
      id.Some? && exists i :: 0 <= i < |old(cart.rows)| && old(cart.rows)[i].id == id.value
    ensures id.Some? && (exists i :: 0 <= i < |old(cart.rows)| && old(cart.rows)[i].id == id.value) ==>
      |cart.rows| == |old(cart.rows)| - 1
    ensures id.Some? && (forall i :: 0 <= i < |old(cart.rows)| ==> old(cart.rows)[i].id != id.value) ==>
      cart.rows == old(cart.rows) && reply == Status(404, false, "No item found with that ID in the cart.")
  {
    if id.None? {
      return Status(400, false, "ID is required.");
    }
    ghost var before := cart.rows;
    CountIdAtMostOne(before, cart.next, id.value);
    var affectedRows := cart.Delete(HasId(id.value));
    if affectedRows > 0 {
      reply := Status(200, true, "Deleted from cart successfully");
    } else {
      DeleteNoneUnchanged(before, HasId(id.value));
      reply := Status(404, false, "No item found with that ID in the cart.");
    }
  }

  /** `/deleteFav`: deletes the wishlist entry with the given id. */
  method DeleteFav(wishlist: Table<WishlistItem>, id: Option<nat>) returns (reply: Reply)
    requires wishlist.Valid()
    modifies wishlist
    ensures wishlist.Valid()
    ensures wishlist.next == old(wishlist.next)
    ensures id.None? ==> wishlist.rows == old(wishlist.rows) && reply == Status(400, false, "ID is required.")
    ensures id.Some? ==> wishlist.rows == Delete(old(wishlist.rows), HasId(id.value))
    ensures reply == Status(200, true, "Successfully removed from wishlist!") <==>
      id.Some? && exists i :: 0 <= i < |old(wishlist.rows)| && old(wishlist.rows)[i].id == id.value
    ensures id.Some? && (exists i :: 0 <= i < |old(wishlist.rows)| && old(wishlist.rows)[i].id == id.value) ==>
      |wishlist.rows| == |old(wishlist.rows)| - 1
    ensures id.Some? && (forall i :: 0 <= i < |old(wishlist.rows)| ==> old(wishlist.rows)[i].id != id.value) ==>
      wishlist.rows == old(wishlist.rows) && reply == Status(404, false, "Entry not found in wishlist.")
  {
    if id.None? {
      return Status(400, false, "ID is required.");
    }
    ghost var before := wishlist.rows;
    CountIdAtMostOne(before, wishlist.next, id.value);
    var affectedRows := wishlist.Delete(HasId(id.value));
    if affectedRows > 0 {
      reply := Status(200, true, "Successfully removed from wishlist!");
    } else {
      DeleteNoneUnchanged(before, HasId(id.value));
      reply := Status(404, false, "Entry not found in wishlist.");
    }
  }

  // ---------------------------------------------------------- /addAddress

  /** `/addAddress`: inserts the address with the `isDefault` value the
      client sent (`None` when the body has no such field), without touching
      the user's other addresses. */
  method AddAddress(address: Table<Address>, userId: Option<nat>, fields: AddressFields, isDefault: Option<string>) returns (reply: Reply)
    requires address.Valid()
    modifies address
    ensures address.Valid()
    ensures userId.None? || fields.title == "" || fields.address == "" || fields.state == "" || fields.city == "" ||
            fields.pincode == "" || isDefault.None? ==>
      address.rows == old(address.rows) && address.next == old(address.next) && reply == Status(400, false, "Missing required parameters.")
    ensures !(userId.None? || fields.title == "" || fields.address == "" || fields.state == "" || fields.city == "" ||
              fields.pincode == "" || isDefault.None?) ==>
      && address.rows == old(address.rows) + [Row(old(address.next), Address(userId.value, fields, isDefault.value))]
      && address.next == old(address.next) + 1
      && reply == Status(200, true, "Address added successfully.")
  {
    if userId.None? || fields.title == "" || fields.address == "" || fields.state == "" || fields.city == "" ||
       fields.pincode == "" || isDefault.None? {
      return Status(400, false, "Missing required parameters.");
    }
    var _ := address.Insert(Address(userId.value, fields, isDefault.value));
    reply := Status(200, true, "Address added successfully.");
  }

  /** Because it clears nothing, a default address added for a user who
      already has one leaves that user with two defaults. */
  lemma AddDefaultBesideDefault(rows: seq<Row<Address>>, i: nat, x: Row<Address>)
    requires i < |rows| && rows[i].val.isDefault == "yes"
    requires x.val.userId == rows[i].val.userId && x.val.isDefault == "yes"
    ensures !OneDefaultPerUser(rows + [x])
    ensures Defaults(rows + [x], x.val.userId) >= 2
  {
    var after := rows + [x];
    assert after[i] == rows[i] && after[|rows|] == x;
    assert DefaultOf(x.val.userId)(rows[i]);
    CountAppend(rows, x, DefaultOf(x.val.userId));
  }

  // ----------------------------------------------------------- /startTest

  /** `/startTest`: records one start of a test. */
  method StartTest(timing: Table<TestTiming>, userId: Option<nat>, testId: Option<nat>, startTime: string) returns (reply: Reply)
    requires timing.Valid()
    modifies timing
    ensures timing.Valid()
    ensures userId.None? || testId.None? || startTime == "" ==>
      timing.rows == old(timing.rows) && timing.next == old(timing.next) && reply == Status(400, false, "Missing parameters.")
    ensures userId.Some? && testId.Some? && startTime != "" ==>
      && timing.rows == old(timing.rows) + [Row(old(timing.next), TestTiming(userId.value, testId.value, startTime))]
      && timing.next == old(timing.next) + 1
      && reply == Status(200, true, "Test started successfully")
  {
    if userId.None? || testId.None? || startTime == "" {
      return Status(400, false, "Missing parameters.");
    }
    var _ := timing.Insert(TestTiming(userId.value, testId.value, startTime));
    reply := Status(200, true, "Test started successfully");
  }

  /** Starting the same test twice leaves two timing rows for it. */
  method StartTestTwice(timing: Table<TestTiming>, userId: nat, testId: nat, first: string, second: string)
    requires timing.Valid() && first != "" && second != ""
    modifies timing
    ensures timing.Valid()
    ensures Count(timing.rows, KeyIs(TimingKey, (userId, testId))) == Count(old(timing.rows), KeyIs(TimingKey, (userId, testId))) + 2
    ensures !UniqueKey(timing.rows, TimingKey)
  {
    ghost var before := timing.rows;
    ghost var n := timing.next;
    var _ := StartTest(timing, Some(userId), Some(testId), first);
    var _ := StartTest(timing, Some(userId), Some(testId), second);
    InsertTwiceDuplicates(before, TimingKey, Row(n, TestTiming(userId, testId, first)), Row(n + 1, TestTiming(userId, testId, second)));
  }

  // ------------------------------------------------------------ /giveTest

  /** `/giveTest`: records an answer, whether or not the user already
      answered the question. */
  method GiveTest(given: Table<Answer>, testId: Option<nat>, qid: Option<nat>, ansId: string, userId: Option<nat>, kind: string) returns (reply: Reply)
    requires given.Valid()
    modifies given
    ensures given.Valid()
    ensures testId.None? || qid.None? || ansId == "" || userId.None? || kind == "" ==>
      given.rows == old(given.rows) && given.next == old(given.next) && reply == Status(400, false, "All fields are required.")
    ensures testId.Some? && qid.Some? && ansId != "" && userId.Some? && kind != "" ==>
      && given.rows == old(given.rows) + [Row(old(given.next), Answer(testId.value, qid.value, ansId, userId.value, kind))]
      && given.next == old(given.next) + 1
      && reply == Status(200, true, "Test recorded successfully.")
  {
    if testId.None? || qid.None? || ansId == "" || userId.None? || kind == "" {
      return Status(400, false, "All fields are required.");
    }
    var _ := given.Insert(Answer(testId.value, qid.value, ansId, userId.value, kind));
    reply := Status(200, true, "Test recorded successfully.");
  }

  /** Two `/giveTest` answers to the same question by the same user leave two
      rows for the pair, which the `/testupdate` route of userweb.js never
      does. */
  method GiveTestTwice(given: Table<Answer>, testId: nat, qid: nat, first: string, second: string, userId: nat, kind: string)
    requires given.Valid() && first != "" && second != "" && kind != ""
    modifies given
    ensures given.Valid()
    ensures Count(given.rows, KeyIs(AnswerKey, (qid, userId))) == Count(old(given.rows), KeyIs(AnswerKey, (qid, userId))) + 2
    ensures !UniqueKey(given.rows, AnswerKey)
  {
    ghost var before := given.rows;
    ghost var n := given.next;
    var _ := GiveTest(given, Some(testId), Some(qid), first, Some(userId), kind);
    var _ := GiveTest(given, Some(testId), Some(qid), second, Some(userId), kind);
    InsertTwiceDuplicates(before, AnswerKey, Row(n, Answer(testId, qid, first, userId, kind)), Row(n + 1, Answer(testId, qid, second, userId, kind)));
  }
}
