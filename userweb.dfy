/** The public-API routes of userweb.js that change tables or choose what to
    read: cart lines, wishlist pairs, addresses and their default flag, quiz
    answers, reading progress, blog navigation and the book-listing order.
    Only the two wishlist routes validate their parameters; every parameter
    of the other routes is taken as present. */
module UserWeb {
  import opened Rows
  import opened Schema
  import opened Database

  // ------------------------------------------------------------- /books

  /** The column a book listing is ordered by (always descending). */
  datatype BookOrder = ById | ByPurchaseCount

  /** The listing query `/books` runs: its ORDER BY column, and whether the
      extra condition `ebooks.editor = "yes"` is added. */
  datatype ListingQuery = ListingQuery(orderBy: BookOrder, editorsOnly: bool)

  /** `type` "best-seller" orders by purchase count, `type` "editot" keeps
      only editor picks, anything else lists every book by id. */
  function BooksQuery(kind: string): (q: ListingQuery)
    ensures q.orderBy == ByPurchaseCount <==> kind == "best-seller"
    ensures q.editorsOnly <==> kind == "editot"
    ensures !(q.editorsOnly && q.orderBy == ByPurchaseCount)
  {
    if kind == "best-seller" then ListingQuery(ByPurchaseCount, false)
    else if kind == "editot" then ListingQuery(ById, true)
    else ListingQuery(ById, false)
  }

  // ----------------------------------------------------------- wishlist

  /** `/remove-wishlist`: deletes every (user, e-book) pair row. */
  method RemoveWishlist(wishlist: Table<WishlistItem>, userId: Option<nat>, ebookId: Option<nat>) returns (reply: Reply)
    requires wishlist.Valid()
    modifies wishlist
    ensures wishlist.Valid()
    ensures wishlist.next == old(wishlist.next)
    ensures userId.None? || ebookId.None? ==>
      wishlist.rows == old(wishlist.rows) && wishlist.next == old(wishlist.next) && reply == Status(400, false, "UserId and ebookId are required.")
    ensures userId.Some? && ebookId.Some? ==>
      var p := KeyIs(WishlistKey, (userId.value, ebookId.value));
      && wishlist.rows == Delete(old(wishlist.rows), p)
      && (forall i :: 0 <= i < |wishlist.rows| ==> !p(wishlist.rows[i]))
      && reply == (if Count(old(wishlist.rows), p) > 0 then Status(200, true, "success") else Status(200, false, "failed"))
  {
    if userId.None? || ebookId.None? {
      return Status(400, false, "UserId and ebookId are required.");
    }
    var affectedRows := wishlist.Delete(KeyIs(WishlistKey, (userId.value, ebookId.value)));
    if affectedRows > 0 {
      reply := Status(200, true, "success");
    } else {
      reply := Status(200, false, "failed");
    }
  }

  /** `/add-wishlist`: inserts the pair without looking for an existing one. */
  method AddWishlist(wishlist: Table<WishlistItem>, userId: Option<nat>, ebookId: Option<nat>) returns (reply: Reply)
    requires wishlist.Valid()
    modifies wishlist
    ensures wishlist.Valid()
    ensures userId.None? || ebookId.None? ==>
      wishlist.rows == old(wishlist.rows) && wishlist.next == old(wishlist.next) && reply == Status(400, false, "UserId and ebookId are required.")
    ensures userId.Some? && ebookId.Some? ==>
      && wishlist.rows == old(wishlist.rows) + [Row(old(wishlist.next), WishlistItem(userId.value, ebookId.value))]
      && wishlist.next == old(wishlist.next) + 1
      && reply == Status(200, true, "success")
  {
    if userId.None? || ebookId.None? {
      return Status(400, false, "UserId and ebookId are required.");
    }
    var _ := wishlist.Insert(WishlistItem(userId.value, ebookId.value));
    // the INSERT reports affectedRows = 1, so the "failed" reply is never sent
    reply := Status(200, true, "success");
  }

  // --------------------------------------------------------- readebook

  /** `/readUpdate`: records the page a user has reached in an e-book,
      rewriting the (user, e-book) row when one exists and inserting one
      otherwise. */
  method ReadUpdate(readebook: Table<Progress>, pageNo: nat, ebookId: nat, userId: nat) returns (reply: Reply)
    requires readebook.Valid()
    modifies readebook
    ensures readebook.Valid()
    ensures readebook.rows == Upsert(old(readebook.rows), ProgressKey, (userId, ebookId), WithPage(pageNo),
                                     Row(old(readebook.next), Progress(userId, ebookId, pageNo)))
    ensures readebook.next == old(readebook.next) + (if Count(old(readebook.rows), KeyIs(ProgressKey, (userId, ebookId))) > 0 then 0 else 1)
    ensures reply == Text("success")
  {
    var p := KeyIs(ProgressKey, (userId, ebookId));
    var check := readebook.Select(p);
    if |check| > 0 {
      var _ := readebook.Update(p, WithPage(pageNo));
    } else {
      var _ := readebook.Insert(Progress(userId, ebookId, pageNo));
    }
    // the query result is always a (truthy) object, so "Failed" is never sent
    reply := Text("success");
  }

  /** After `/readUpdate` every row of the (user, e-book) pair holds the new
      page, an existing pair gains no row, and a pair that was unique stays
      unique: the route never creates a second row for a pair. */
  lemma ReadUpdateKeepsOneRow(rows: seq<Row<Progress>>, next: nat, pageNo: nat, ebookId: nat, userId: nat)
    ensures var after := Upsert(rows, ProgressKey, (userId, ebookId), WithPage(pageNo), Row(next, Progress(userId, ebookId, pageNo)));
      && Count(after, KeyIs(ProgressKey, (userId, ebookId))) ==
           (if Count(rows, KeyIs(ProgressKey, (userId, ebookId))) > 0 then Count(rows, KeyIs(ProgressKey, (userId, ebookId))) else 1)
      && (forall i :: 0 <= i < |after| && ProgressKey(after[i].val) == (userId, ebookId) ==> after[i].val.pageNo == pageNo)
      && (UniqueKey(rows, ProgressKey) ==> UniqueKey(after, ProgressKey) && Count(after, KeyIs(ProgressKey, (userId, ebookId))) == 1)
  {
    var onPage := (v: Progress) => v.pageNo == pageNo;
    assert forall v :: ProgressKey(WithPage(pageNo)(v)) == ProgressKey(v);
    assert forall v :: onPage(WithPage(pageNo)(v));
    UpsertKeyed(rows, ProgressKey, (userId, ebookId), WithPage(pageNo), Row(next, Progress(userId, ebookId, pageNo)), onPage);
  }

  // ------------------------------------------------------ /getBlogView

  /** `WHERE id < k ORDER BY id DESC LIMIT 1`: the blog just before id `k`. */
  function Prev(blogs: seq<Row<Blog>>, k: nat): (r: Option<Row<Blog>>)
    ensures r.Some? ==> r.value in blogs && r.value.id < k
    ensures r.Some? ==> forall i :: 0 <= i < |blogs| && blogs[i].id < k ==> blogs[i].id <= r.value.id
    ensures r.None? <==> forall i :: 0 <= i < |blogs| ==> blogs[i].id >= k
  {
    if blogs == [] then None
    else
      var rest := Prev(blogs[1..], k);
      assert forall i :: 0 < i < |blogs| ==> blogs[i] == blogs[1..][i - 1];
      if blogs[0].id < k && (rest.None? || rest.value.id < blogs[0].id) then Some(blogs[0]) else rest
  }

  /** `WHERE id > k ORDER BY id ASC LIMIT 1`: the blog just after id `k`. */
  function Next(blogs: seq<Row<Blog>>, k: nat): (r: Option<Row<Blog>>)
    ensures r.Some? ==> r.value in blogs && r.value.id > k
    ensures r.Some? ==> forall i :: 0 <= i < |blogs| && blogs[i].id > k ==> blogs[i].id >= r.value.id
    ensures r.None? <==> forall i :: 0 <= i < |blogs| ==> blogs[i].id <= k
  {
    if blogs == [] then None
    else
      var rest := Next(blogs[1..], k);
      assert forall i :: 0 < i < |blogs| ==> blogs[i] == blogs[1..][i - 1];
      if blogs[0].id > k && (rest.None? || rest.value.id > blogs[0].id) then Some(blogs[0]) else rest
  }

  function AsRows(r: Option<Row<Blog>>): (s: seq<Row<Blog>>) {
    match r
    case None => []
    case Some(b) => [b]
  }

  /** `/getBlogView`: the blogs list the route answers with for blog `blogId`
      and `path`. "prev" gives the nearest blog below, "next" the nearest
      above, any other path the blog itself; when that finds nothing the
      route falls back to the blog itself. */
  function BlogView(blogs: seq<Row<Blog>>, blogId: nat, path: string): (r: seq<Row<Blog>>)
    ensures path == "prev" && (exists i :: 0 <= i < |blogs| && blogs[i].id < blogId) ==>
      && |r| == 1 && r[0] in blogs && r[0].id < blogId
      && forall i :: 0 <= i < |blogs| && blogs[i].id < blogId ==> blogs[i].id <= r[0].id
    ensures path == "next" && (exists i :: 0 <= i < |blogs| && blogs[i].id > blogId) ==>
      && |r| == 1 && r[0] in blogs && r[0].id > blogId
      && forall i :: 0 <= i < |blogs| && blogs[i].id > blogId ==> blogs[i].id >= r[0].id
    ensures || (path != "prev" && path != "next")
            || (path == "prev" && forall i :: 0 <= i < |blogs| ==> blogs[i].id >= blogId)
            || (path == "next" && forall i :: 0 <= i < |blogs| ==> blogs[i].id <= blogId)
            ==> r == Select(blogs, HasId(blogId))
  {
    var found :=
      if path == "prev" then AsRows(Prev(blogs, blogId))
      else if path == "next" then AsRows(Next(blogs, blogId))
      else Select(blogs, HasId(blogId));
    if |found| == 0 then Select(blogs, HasId(blogId)) else found
  }

  /** Under the primary-key invariant the route answers with one blog at
      most, whatever the path; and the fallback, taken for any other path or
      when "prev" or "next" finds nothing, is the blog itself. */
  lemma BlogViewFallbackAtMostOne(blogs: seq<Row<Blog>>, next: nat, blogId: nat, path: string)
    requires WellFormed(blogs, next)
    ensures |BlogView(blogs, blogId, path)| <= 1
    ensures || (path != "prev" && path != "next")
            || (path == "prev" && forall i :: 0 <= i < |blogs| ==> blogs[i].id >= blogId)
            || (path == "next" && forall i :: 0 <= i < |blogs| ==> blogs[i].id <= blogId)
            ==> forall i :: 0 <= i < |BlogView(blogs, blogId, path)| ==> BlogView(blogs, blogId, path)[i].id == blogId
  {
    CountIdAtMostOne(blogs, next, blogId);
    var r := BlogView(blogs, blogId, path);
    var own := Select(blogs, HasId(blogId));
    forall i | 0 <= i < |own| ensures own[i].id == blogId {
      assert HasId<Blog>(blogId)(own[i]);
    }
  }

  // --------------------------------------------------------------- cart

  /** `/addToCart`: adds an e-book to a user's cart only when no line for the
      (user, e-book) pair exists; an existing line is left as it is. */
  method AddToCart(cart: Table<CartItem>, userId: nat, ebookId: nat) returns (reply: Reply)
    requires cart.Valid()
    modifies cart
    ensures cart.Valid()
    ensures Count(old(cart.rows), KeyIs(CartKey, (userId, ebookId))) > 0 ==>
      cart.rows == old(cart.rows) && cart.next == old(cart.next) && reply == Message("Item already in cart go to cart")
    ensures Count(old(cart.rows), KeyIs(CartKey, (userId, ebookId))) == 0 ==>
      && cart.rows == old(cart.rows) + [Row(old(cart.next), CartItem(userId, ebookId, CartQtyDefault))]
      && cart.next == old(cart.next) + 1
      && reply == Message("success")
    ensures Count(cart.rows, KeyIs(CartKey, (userId, ebookId))) >= 1
    ensures UniqueKey(old(cart.rows), CartKey) ==> UniqueKey(cart.rows, CartKey)
    ensures QtyPositive(old(cart.rows)) ==> QtyPositive(cart.rows)
  {
    var p := KeyIs(CartKey, (userId, ebookId));
    ghost var before := cart.rows;
    var checkItem := cart.Select(p);
    if |checkItem| > 0 {
      return Message("Item already in cart go to cart");
    }
    ghost var x := Row(cart.next, CartItem(userId, ebookId, CartQtyDefault));
    AppendNewKey(before, CartKey, x);
    var _ := cart.Insert(CartItem(userId, ebookId, CartQtyDefault));
    // the INSERT result is always a (truthy) object, so "failed" is never sent
    reply := Message("success");
  }

  /** Two `/addToCart` requests for the same user and e-book: the second finds
      the line the first left and changes nothing, so the pair keeps a single
      line with the default quantity when it had none. */
  method AddToCartTwice(cart: Table<CartItem>, userId: nat, ebookId: nat) returns (second: Reply)
    requires cart.Valid()
    modifies cart
    ensures cart.Valid()
    ensures second == Message("Item already in cart go to cart")
    ensures Count(old(cart.rows), KeyIs(CartKey, (userId, ebookId))) > 0 ==> cart.rows == old(cart.rows)
    ensures Count(old(cart.rows), KeyIs(CartKey, (userId, ebookId))) == 0 ==>
      && cart.rows == old(cart.rows) + [Row(old(cart.next), CartItem(userId, ebookId, CartQtyDefault))]
      && Count(cart.rows, KeyIs(CartKey, (userId, ebookId))) == 1
    ensures UniqueKey(old(cart.rows), CartKey) ==> UniqueKey(cart.rows, CartKey)
  {
    ghost var before := cart.rows;
    ghost var x := Row(cart.next, CartItem(userId, ebookId, CartQtyDefault));
    var _ := AddToCart(cart, userId, ebookId);
    second := AddToCart(cart, userId, ebookId);
    if Count(before, KeyIs(CartKey, (userId, ebookId))) == 0 {
      AppendNewKey(before, CartKey, x);
    }
  }

  /** `/deleteFromCart`: deletes the cart line with the given id. */
  method DeleteFromCart(cart: Table<CartItem>, cartId: nat) returns (reply: Reply)
    requires cart.Valid()
    modifies cart
    ensures cart.Valid()
    ensures cart.next == old(cart.next)
    ensures cart.rows == Delete(old(cart.rows), HasId(cartId))
    ensures (exists i :: 0 <= i < |old(cart.rows)| && old(cart.rows)[i].id == cartId) ==>
      |cart.rows| == |old(cart.rows)| - 1 && reply == Message("success")
    ensures (forall i :: 0 <= i < |old(cart.rows)| ==> old(cart.rows)[i].id != cartId) ==>
      cart.rows == old(cart.rows) && reply == Message("Something wents wrong, Try again !")
    ensures UniqueKey(old(cart.rows), CartKey) ==> UniqueKey(cart.rows, CartKey)
    ensures QtyPositive(old(cart.rows)) ==> QtyPositive(cart.rows)
  {
    ghost var before := cart.rows;
    CountIdAtMostOne(before, cart.next, cartId);
    if UniqueKey(before, CartKey) {
      DeleteKeepsUnique(before, CartKey, HasId(cartId));
    }
    var affectedRows := cart.Delete(HasId(cartId));
    if affectedRows > 0 {
      reply := Message("success");
    } else {
      DeleteNoneUnchanged(before, HasId(cartId));
      reply := Message("Something wents wrong, Try again !");
    }
  }

  /** The quantity `/updateQuantity` stores: "min" lowers it by one but never
      below 1, "plus" raises it by one with no ceiling, any other state keeps it. */
  function NewQty(qty: int, state: string): (r: int)
    ensures state == "min" ==> r >= 1 && (qty > 1 ==> r == qty - 1) && (qty <= 1 ==> r == 1)
    ensures state == "plus" ==> r == qty + 1
    ensures state != "min" && state != "plus" ==> r == qty
    ensures qty >= 1 ==> r >= 1
  {
    if state == "min" then (if qty <= 1 then 1 else qty - 1)
    else if state == "plus" then qty + 1
    else qty
  }

  /** Rewriting the quantity of the line with id `k` keeps the cart's
      (user, e-book) key unique, and keeps quantities positive when the new
      one is. */
  lemma SetQtyKeeps(rows: seq<Row<CartItem>>, k: nat, q: int)
    ensures UniqueKey(rows, CartKey) ==> UniqueKey(Update(rows, HasId(k), WithQty(q)), CartKey)
    ensures QtyPositive(rows) && q >= 1 ==> QtyPositive(Update(rows, HasId(k), WithQty(q)))
  {
    var after := Update(rows, HasId(k), WithQty(q));
    assert forall v :: CartKey(WithQty(q)(v)) == CartKey(v);
    if UniqueKey(rows, CartKey) {
      UpdateKeepsUnique(rows, CartKey, HasId(k), WithQty(q));
    }
    if QtyPositive(rows) && q >= 1 {
      forall i | 0 <= i < |rows| ensures after[i].val.qty >= 1 {
        if HasId<CartItem>(k)(rows[i]) {
          assert after[i].val == WithQty(q)(rows[i].val);
        }
      }
    }
  }

  /** `/updateQuantity`: reads the cart line with the given id, works out its
      new quantity and writes it back, answering with that quantity. With no
      such line, reading `item[0].qty` throws outside any error handling and
      the request is never answered. */
  method UpdateQuantity(cart: Table<CartItem>, cartId: nat, state: string) returns (reply: Reply)
    requires cart.Valid()
    modifies cart
    ensures cart.Valid()
    ensures cart.next == old(cart.next)
    ensures match First(old(cart.rows), HasId(cartId))
      case None => cart.rows == old(cart.rows) && reply == NoReply
      case Some(i) =>
        var q := NewQty(old(cart.rows)[i].val.qty, state);
        cart.rows == Update(old(cart.rows), HasId(cartId), WithQty(q)) && reply == QtyJson(q)
    ensures UniqueKey(old(cart.rows), CartKey) ==> UniqueKey(cart.rows, CartKey)
    ensures QtyPositive(old(cart.rows)) ==> QtyPositive(cart.rows)
  {
    ghost var before := cart.rows;
    var item := cart.Select(HasId(cartId));
    if |item| == 0 {
      return NoReply;
    }
    SelectHeadIsFirst(before, HasId(cartId));
    var qty := item[0].val.qty;
    if state == "min" {
      qty := if qty <= 1 then 1 else qty - 1;
    } else if state == "plus" {
      qty := qty + 1;
    }
    assert qty == NewQty(item[0].val.qty, state);
    SetQtyKeeps(before, cartId, qty);
    var affectedRows := cart.Update(HasId(cartId), WithQty(qty));
    if affectedRows > 0 {
      reply := QtyJson(qty);
    } else {
      reply := Message("Failed to update quantity");
    }
  }

  // ------------------------------------------------------------ address

  /** Clearing the default flags of `u` leaves `u` no default row. */
  lemma ClearedHasNoDefault(rows: seq<Row<Address>>, u: nat)
    ensures forall i :: 0 <= i < |rows| ==> !DefaultOf(u)(Update(rows, OwnedBy(u), WithDefault("no"))[i])
  {
    var cleared := Update(rows, OwnedBy(u), WithDefault("no"));
    forall i | 0 <= i < |rows| ensures !DefaultOf(u)(cleared[i]) {
      if OwnedBy(u)(rows[i]) {
        assert cleared[i].val == WithDefault("no")(rows[i].val);
      } else {
        assert cleared[i] == rows[i];
      }
    }
  }

  /** After clearing every default flag of `u` and appending a default row of
      `u`, exactly one address of `u` is the default. */
  lemma ClearThenAddDefault(rows: seq<Row<Address>>, u: nat, x: Row<Address>)
    requires DefaultOf(u)(x)
    ensures Defaults(Update(rows, OwnedBy(u), WithDefault("no")) + [x], u) == 1
  {
    var cleared := Update(rows, OwnedBy(u), WithDefault("no"));
    ClearedHasNoDefault(rows, u);
    CountAppend(cleared, x, DefaultOf(u));
  }

  /** Clearing `u`'s default flags leaves every row of another user as it was. */
  lemma ClearKeepsOthers(rows: seq<Row<Address>>, u: nat)
    ensures var cleared := Update(rows, OwnedBy(u), WithDefault("no"));
      forall i :: 0 <= i < |rows| ==>
        cleared[i].val.userId == rows[i].val.userId && (rows[i].val.userId != u ==> cleared[i] == rows[i])
  {
    var cleared := Update(rows, OwnedBy(u), WithDefault("no"));
    forall i | 0 <= i < |rows| ensures cleared[i].val.userId == rows[i].val.userId && (rows[i].val.userId != u ==> cleared[i] == rows[i]) {
      if OwnedBy(u)(rows[i]) {
        assert cleared[i].val == WithDefault("no")(rows[i].val);
      } else {
        assert cleared[i] == rows[i];
      }
    }
  }

  /** Clearing `u`'s default flags and appending a default of `u` keeps every
      user to one default address. */
  lemma ClearThenAddKeepsOneDefault(rows: seq<Row<Address>>, u: nat, x: Row<Address>)
    requires DefaultOf(u)(x)
    requires OneDefaultPerUser(rows)
    ensures OneDefaultPerUser(Update(rows, OwnedBy(u), WithDefault("no")) + [x])
  {
    var cleared := Update(rows, OwnedBy(u), WithDefault("no"));
    var after := cleared + [x];
    ClearedHasNoDefault(rows, u);
    ClearKeepsOthers(rows, u);
    forall i, j | 0 <= i < j < |after| && after[i].val.isDefault == "yes" && after[j].val.isDefault == "yes"
      ensures after[i].val.userId != after[j].val.userId
    {
      assert after[i] == cleared[i];
      if j == |rows| {
        // row i is not a default of u, so it belongs to someone else
        assert !DefaultOf(u)(cleared[i]);
      } else if cleared[i].val.userId != u {
        assert after[j] == cleared[j];
      }
    }
  }

  /** `/addAddress`'s pair of statements leaves the new row the user's only
      default, leaves other users' rows as they were, and keeps every user to
      one default address. */
  lemma ClearThenAdd(rows: seq<Row<Address>>, u: nat, x: Row<Address>)
    requires DefaultOf(u)(x)
    ensures var after := Update(rows, OwnedBy(u), WithDefault("no")) + [x];
      && Defaults(after, u) == 1
      && OthersUnchanged(rows, after, u)
      && (OneDefaultPerUser(rows) ==> OneDefaultPerUser(after))
  {
    var cleared := Update(rows, OwnedBy(u), WithDefault("no"));
    var after := cleared + [x];
    ClearThenAddDefault(rows, u, x);
    ClearKeepsOthers(rows, u);
    forall i | 0 <= i < |rows| && rows[i].val.userId != u ensures after[i] == rows[i] {
      assert after[i] == cleared[i];
    }
    if OneDefaultPerUser(rows) {
      ClearThenAddKeepsOneDefault(rows, u, x);
    }
  }

  /** `/addAddress`: clears the user's default flags, then inserts the new
      address as the default. */
  method AddAddress(address: Table<Address>, userId: nat, fields: AddressFields) returns (reply: Reply)
    requires address.Valid()
    modifies address
    ensures address.Valid()
    ensures address.rows ==
      Update(old(address.rows), OwnedBy(userId), WithDefault("no")) + [Row(old(address.next), Address(userId, fields, "yes"))]
    ensures address.next == old(address.next) + 1
    ensures Defaults(address.rows, userId) == 1
    ensures OthersUnchanged(old(address.rows), address.rows, userId)
    ensures OneDefaultPerUser(old(address.rows)) ==> OneDefaultPerUser(address.rows)
    ensures reply == Message("success")
  {
    ghost var before := address.rows;
    ghost var x := Row(address.next, Address(userId, fields, "yes"));
    ClearThenAdd(before, userId, x);
    var _ := address.Update(OwnedBy(userId), WithDefault("no"));
    var insertId := address.Insert(Address(userId, fields, "yes"));
    assert address.rows == Update(before, OwnedBy(userId), WithDefault("no")) + [x];
    if insertId != 0 {
      reply := Message("success");
    } else {
      reply := Message("failed");
    }
  }

  /** The rows `/setDefault`'s two statements leave: `u`'s flags cleared,
      then the flag of the row with id `k` set. */
  function SetDefaultRows(rows: seq<Row<Address>>, u: nat, k: nat): (r: seq<Row<Address>>) {
    Update(Update(rows, OwnedBy(u), WithDefault("no")), HasId(k), WithDefault("yes"))
  }

  /** Setting the flag of the row with id `k` in a table where `u` has no
      default makes `u`'s defaults exactly the rows of `u` with id `k`. */
  lemma MarkedDefaults(cleared: seq<Row<Address>>, u: nat, k: nat)
    requires forall i :: 0 <= i < |cleared| ==> !DefaultOf(u)(cleared[i])
    ensures var after := Update(cleared, HasId(k), WithDefault("yes"));
      forall i :: 0 <= i < |cleared| ==> (DefaultOf(u)(after[i]) <==> cleared[i].id == k && cleared[i].val.userId == u)
  {
    var after := Update(cleared, HasId(k), WithDefault("yes"));
    forall i | 0 <= i < |cleared| ensures DefaultOf(u)(after[i]) <==> cleared[i].id == k && cleared[i].val.userId == u {
      if cleared[i].id == k {
        assert HasId<Address>(k)(cleared[i]);
        assert after[i].val == WithDefault("yes")(cleared[i].val);
      } else {
        assert after[i] == cleared[i];
      }
    }
  }

  /** Clearing `u`'s default flags and then setting the flag of the row with
      id `k`, found at position `i0`, leaves `u` exactly one default when that
      row is one of `u`'s. */
  lemma ClearThenSetDefaultAt(rows: seq<Row<Address>>, next: nat, u: nat, k: nat, i0: nat)
    requires WellFormed(rows, next)
    requires i0 < |rows| && rows[i0].id == k && rows[i0].val.userId == u
    ensures Defaults(SetDefaultRows(rows, u, k), u) == 1
  {
    var cleared := Update(rows, OwnedBy(u), WithDefault("no"));
    var after := Update(cleared, HasId(k), WithDefault("yes"));
    ClearedHasNoDefault(rows, u);
    MarkedDefaults(cleared, u, k);
    forall i | 0 <= i < |rows| && rows[i].id == k ensures rows[i].val.userId == u {
      IdsDistinct(rows, next, i, i0);
    }
    assert forall i :: 0 <= i < |rows| ==> cleared[i].id == rows[i].id && cleared[i].val.userId == rows[i].val.userId;
    CountWhereIdOnce(rows, next, k, i0, after, DefaultOf(u));
  }

  /** When the row with id `k` is one of `u`'s, setting the flag by id alone
      sets it on exactly the rows the ownership-checked condition matches. */
  lemma SetByIdIsOwned(rows: seq<Row<Address>>, next: nat, u: nat, k: nat, i0: nat)
    requires WellFormed(rows, next)
    requires i0 < |rows| && rows[i0].id == k && rows[i0].val.userId == u
    ensures var cleared := Update(rows, OwnedBy(u), WithDefault("no"));
      Update(cleared, HasId(k), WithDefault("yes")) == Update(cleared, OwnAddress(u, k), WithDefault("yes"))
  {
    var cleared := Update(rows, OwnedBy(u), WithDefault("no"));
    ClearKeepsOthers(rows, u);
    forall i | 0 <= i < |cleared| ensures HasId<Address>(k)(cleared[i]) <==> OwnAddress(u, k)(cleared[i]) {
      if rows[i].id == k {
        IdsDistinct(rows, next, i, i0);
      }
    }
    UpdateSameMatches(cleared, HasId(k), OwnAddress(u, k), WithDefault("yes"));
  }

  /** Clearing `u`'s default flags and then setting the flag of the row with
      id `k`, when that row is one of `u`'s, leaves `u` exactly one default,
      leaves other users' rows as they were and keeps every user to one
      default. */
  lemma ClearThenSetDefault(rows: seq<Row<Address>>, next: nat, u: nat, k: nat)
    requires WellFormed(rows, next)
    requires OwnsAddress(rows, u, k)
    ensures var after := SetDefaultRows(rows, u, k);
      && Defaults(after, u) == 1
      && OthersUnchanged(rows, after, u)
      && (OneDefaultPerUser(rows) ==> OneDefaultPerUser(after))
  {
    var i0 :| 0 <= i0 < |rows| && rows[i0].id == k && rows[i0].val.userId == u;
    ClearThenSetDefaultAt(rows, next, u, k, i0);
    SetByIdIsOwned(rows, next, u, k, i0);
    ClearThenSetOwnedPointwise(rows, u, k);
    if OneDefaultPerUser(rows) {
      ClearThenSetOwnedKeepsOneDefault(rows, next, u, k);
    }
  }

  /** Clearing `u`'s default flags and then setting the flag of a row that is
      not one of `u`'s leaves `u` with no default. */
  lemma ClearThenSetForeign(rows: seq<Row<Address>>, u: nat, k: nat)
    requires forall i :: 0 <= i < |rows| && rows[i].id == k ==> rows[i].val.userId != u
    ensures Defaults(SetDefaultRows(rows, u, k), u) == 0
  {
    var cleared := Update(rows, OwnedBy(u), WithDefault("no"));
    ClearedHasNoDefault(rows, u);
    MarkedDefaults(cleared, u, k);
    forall i | 0 <= i < |cleared| ensures cleared[i].id == rows[i].id && cleared[i].val.userId == rows[i].val.userId {
    }
  }

  /** The facts about `/setDefault`'s pair of statements the route relies
      on: the second statement matches as many rows as the id matched before
      the first; an address of the user's leaves the user one default, other
      users' rows unchanged and every user one default; a foreign address
      leaves the user none. */
  lemma ClearThenSetById(rows: seq<Row<Address>>, next: nat, u: nat, k: nat)
    requires WellFormed(rows, next)
    ensures var cleared := Update(rows, OwnedBy(u), WithDefault("no"));
      var after := SetDefaultRows(rows, u, k);
      && Count(cleared, HasId(k)) == Count(rows, HasId(k))
      && (OwnsAddress(rows, u, k) ==>
            && Count(rows, OwnedBy(u)) > 0
            && Defaults(after, u) == 1
            && OthersUnchanged(rows, after, u)
            && (OneDefaultPerUser(rows) ==> OneDefaultPerUser(after)))
      && (!OwnsAddress(rows, u, k) ==> Defaults(after, u) == 0)
  {
    CountUpdateSameId(rows, k, OwnedBy(u), WithDefault("no"));
    if OwnsAddress(rows, u, k) {
      var i0 :| 0 <= i0 < |rows| && rows[i0].id == k && rows[i0].val.userId == u;
      assert OwnedBy(u)(rows[i0]);
      ClearThenSetDefault(rows, next, u, k);
    } else {
      ClearThenSetForeign(rows, u, k);
    }
  }

  /** `/setDefault`: clears the user's default flags; only when that matched
      a row does it set the flag of the address with the given id, which it
      does not check against the user. When the user has no address the
      request is never answered. */
  method SetDefault(address: Table<Address>, userId: nat, addressId: nat) returns (reply: Reply)
    requires address.Valid()
    modifies address
    ensures address.Valid()
    ensures address.next == old(address.next)
    ensures Count(old(address.rows), OwnedBy(userId)) == 0 ==> address.rows == old(address.rows) && reply == NoReply
    ensures Count(old(address.rows), OwnedBy(userId)) > 0 ==>
      && address.rows == SetDefaultRows(old(address.rows), userId, addressId)
      && reply == (if Count(old(address.rows), HasId(addressId)) > 0 then Message("success") else Message("Failed"))
    ensures OwnsAddress(old(address.rows), userId, addressId) ==>
      && Defaults(address.rows, userId) == 1
      && OthersUnchanged(old(address.rows), address.rows, userId)
      && (OneDefaultPerUser(old(address.rows)) ==> OneDefaultPerUser(address.rows))
    ensures Count(old(address.rows), OwnedBy(userId)) > 0 && !OwnsAddress(old(address.rows), userId, addressId) ==>
      Defaults(address.rows, userId) == 0
  {
    ghost var before := address.rows;
    ghost var after := SetDefaultRows(before, userId, addressId);
    ClearThenSetById(before, address.next, userId, addressId);
    var cleared := address.Update(OwnedBy(userId), WithDefault("no"));
    if cleared > 0 {
      var marked := address.Update(HasId(addressId), WithDefault("yes"));
      assert address.rows == after;
      if marked > 0 {
        reply := Message("success");
      } else {
        reply := Message("Failed");
      }
    } else {
      reply := NoReply;
    }
  }

  /** Three addresses, where user 1 owns the default one with id 1 and user
      2 owns the ones with ids 2 (the default) and 3. */
  function ForeignExample(): seq<Row<Address>> {
    var f := AddressFields("home", "12", "KA", "Mysuru", "570001", "");
    [Row(1, Address(1, f, "yes")), Row(2, Address(2, f, "yes")), Row(3, Address(2, f, "no"))]
  }

  /** The example is a well-formed table in which every user has one default. */
  lemma ForeignExampleValid()
    ensures WellFormed(ForeignExample(), 4) && OneDefaultPerUser(ForeignExample())
  {
    var rows := ForeignExample();
    assert rows[0].val.userId == 1 && rows[1].val.userId == 2 && rows[2].val.isDefault == "no";
  }

  /** The rows the two statements of `/setDefault` leave in the example
      when user 1 names address 3. */
  lemma ForeignAfter()
    ensures var rows := ForeignExample();
      var f := rows[0].val.fields;
      SetDefaultRows(rows, 1, 3) ==
        [Row(1, Address(1, f, "no")), Row(2, Address(2, f, "yes")), Row(3, Address(2, f, "yes"))]
  {
    var rows := ForeignExample();
    var f := rows[0].val.fields;
    var cleared := Update(rows, OwnedBy(1), WithDefault("no"));
    assert OwnedBy(1)(rows[0]);
    assert cleared == [Row(1, Address(1, f, "no")), rows[1], rows[2]];
    assert HasId<Address>(3)(cleared[2]);
  }

  /** `/setDefault` sent by user 1 with the id of user 2's address 3: both
      statements match a row, so the route answers "success", yet user 1 is
      left with no default and user 2 with two. */
  lemma SetDefaultForeignAddress()
    ensures var rows := ForeignExample();
      var after := SetDefaultRows(rows, 1, 3);
      && WellFormed(rows, 4) && OneDefaultPerUser(rows)
      && Count(rows, OwnedBy(1)) > 0 && Count(rows, HasId(3)) > 0
      && Defaults(after, 1) == 0
      && !OneDefaultPerUser(after)
  {
    var rows := ForeignExample();
    ForeignExampleValid();
    ForeignAfter();
    assert OwnedBy(1)(rows[0]);
    assert HasId<Address>(3)(rows[2]);
    ClearThenSetForeign(rows, 1, 3);
    var after := SetDefaultRows(rows, 1, 3);
    assert after[1].val.isDefault == "yes" && after[2].val.isDefault == "yes";
    assert after[1].val.userId == after[2].val.userId;
  }

  /** Clearing `u`'s flags and then setting the flag only of the row with id
      `k` that `u` owns changes no other user's rows, and leaves `u`'s
      default rows exactly those of `u`'s rows with id `k`. */
  lemma ClearThenSetOwnedPointwise(rows: seq<Row<Address>>, u: nat, k: nat)
    ensures var after := Update(Update(rows, OwnedBy(u), WithDefault("no")), OwnAddress(u, k), WithDefault("yes"));
      forall i :: 0 <= i < |rows| ==>
        && after[i].id == rows[i].id && after[i].val.userId == rows[i].val.userId
        && (rows[i].val.userId != u ==> after[i] == rows[i])
        && (DefaultOf(u)(after[i]) <==> rows[i].id == k && rows[i].val.userId == u)
  {
    var cleared := Update(rows, OwnedBy(u), WithDefault("no"));
    var after := Update(cleared, OwnAddress(u, k), WithDefault("yes"));
    ClearedHasNoDefault(rows, u);
    forall i | 0 <= i < |rows|
      ensures after[i].id == rows[i].id && after[i].val.userId == rows[i].val.userId
      ensures rows[i].val.userId != u ==> after[i] == rows[i]
      ensures DefaultOf(u)(after[i]) <==> rows[i].id == k && rows[i].val.userId == u
    {
      if rows[i].val.userId == u {
        assert cleared[i].val == WithDefault("no")(rows[i].val);
        if rows[i].id == k {
          assert OwnAddress(u, k)(cleared[i]);
          assert after[i].val == WithDefault("yes")(cleared[i].val);
        } else {
          assert after[i] == cleared[i];
        }
      } else {
        assert !OwnedBy(u)(rows[i]) && cleared[i] == rows[i];
        assert !OwnAddress(u, k)(cleared[i]) && after[i] == cleared[i];
      }
    }
  }

  /** The corrected pair of statements keeps every user to one default. */
  lemma ClearThenSetOwnedKeepsOneDefault(rows: seq<Row<Address>>, next: nat, u: nat, k: nat)
    requires WellFormed(rows, next) && OneDefaultPerUser(rows)
    ensures OneDefaultPerUser(Update(Update(rows, OwnedBy(u), WithDefault("no")), OwnAddress(u, k), WithDefault("yes")))
  {
    var after := Update(Update(rows, OwnedBy(u), WithDefault("no")), OwnAddress(u, k), WithDefault("yes"));
    ClearThenSetOwnedPointwise(rows, u, k);
    forall i, j | 0 <= i < j < |after| && after[i].val.isDefault == "yes" && after[j].val.isDefault == "yes"
      ensures after[i].val.userId != after[j].val.userId
    {
      if after[i].val.userId == u {
        // row i has id k, so the later row j does not and is not u's default
        assert DefaultOf(u)(after[i]);
        assert rows[i].id < rows[j].id;
      } else if after[j].val.userId != u {
        assert after[i] == rows[i] && after[j] == rows[j];
      }
    }
  }

  /** The corrected pair leaves `u` exactly one default when `u` owns the
      address with id `k`, and none otherwise. */
  lemma ClearThenSetOwnedDefaults(rows: seq<Row<Address>>, next: nat, u: nat, k: nat)
    requires WellFormed(rows, next)
    ensures var after := Update(Update(rows, OwnedBy(u), WithDefault("no")), OwnAddress(u, k), WithDefault("yes"));
      Defaults(after, u) == (if Count(rows, OwnAddress(u, k)) > 0 then 1 else 0)
  {
    var after := Update(Update(rows, OwnedBy(u), WithDefault("no")), OwnAddress(u, k), WithDefault("yes"));
    ClearThenSetOwnedPointwise(rows, u, k);
    CountPointwise(after, DefaultOf(u), rows, OwnAddress(u, k));
    if Count(rows, OwnAddress(u, k)) > 0 {
      var i0 :| 0 <= i0 < |rows| && OwnAddress(u, k)(rows[i0]);
      forall i | 0 <= i < |rows| ensures OwnAddress(u, k)(rows[i]) <==> rows[i].id == k {
        if rows[i].id == k {
          IdsDistinct(rows, next, i, i0);
        }
      }
      CountWhereIdOnce(rows, next, k, i0, rows, OwnAddress(u, k));
    }
  }

  /** The facts about the corrected pair of statements `SetDefaultOwned`
      relies on. */
  lemma ClearThenSetOwned(rows: seq<Row<Address>>, next: nat, u: nat, k: nat)
    requires WellFormed(rows, next)
    ensures var cleared := Update(rows, OwnedBy(u), WithDefault("no"));
      var after := Update(cleared, OwnAddress(u, k), WithDefault("yes"));
      && Count(cleared, OwnAddress(u, k)) == Count(rows, OwnAddress(u, k))
      && Defaults(after, u) == (if Count(rows, OwnAddress(u, k)) > 0 then 1 else 0)
      && OthersUnchanged(rows, after, u)
      && (OneDefaultPerUser(rows) ==> OneDefaultPerUser(after))
  {
    var cleared := Update(rows, OwnedBy(u), WithDefault("no"));
    ClearThenSetOwnedPointwise(rows, u, k);
    ClearThenSetOwnedDefaults(rows, next, u, k);
    if OneDefaultPerUser(rows) {
      ClearThenSetOwnedKeepsOneDefault(rows, next, u, k);
    }
    forall i | 0 <= i < |rows| ensures OwnAddress(u, k)(cleared[i]) <==> OwnAddress(u, k)(rows[i]) {
      assert cleared[i].id == rows[i].id;
      if OwnedBy(u)(rows[i]) {
        assert cleared[i].val == WithDefault("no")(rows[i].val);
      } else {
        assert cleared[i] == rows[i];
      }
    }
    CountPointwise(cleared, OwnAddress(u, k), rows, OwnAddress(u, k));
  }

  /** `/setDefault` with the ownership check the route evidently intends: the
      flag is set only on the address with the given id that belongs to the
      user, so the route keeps every user to one default address. */
  method SetDefaultOwned(address: Table<Address>, userId: nat, addressId: nat) returns (reply: Reply)
    requires address.Valid()
    modifies address
    ensures address.Valid()
    ensures address.next == old(address.next)
    ensures Count(old(address.rows), OwnedBy(userId)) == 0 ==> address.rows == old(address.rows) && reply == NoReply
    ensures Count(old(address.rows), OwnedBy(userId)) > 0 ==>
      && address.rows == Update(Update(old(address.rows), OwnedBy(userId), WithDefault("no")), OwnAddress(userId, addressId), WithDefault("yes"))
      && Defaults(address.rows, userId) == (if Count(old(address.rows), OwnAddress(userId, addressId)) > 0 then 1 else 0)
      && reply == (if Count(old(address.rows), OwnAddress(userId, addressId)) > 0 then Message("success") else Message("Failed"))
    ensures OthersUnchanged(old(address.rows), address.rows, userId)
    ensures OneDefaultPerUser(old(address.rows)) ==> OneDefaultPerUser(address.rows)
  {
    ghost var before := address.rows;
    var cleared := address.Update(OwnedBy(userId), WithDefault("no"));
    if cleared > 0 {
      ClearThenSetOwned(before, address.next, userId, addressId);
      var marked := address.Update(OwnAddress(userId, addressId), WithDefault("yes"));
      if marked > 0 {
        reply := Message("success");
      } else {
        reply := Message("Failed");
      }
    } else {
      reply := NoReply;
    }
  }

  // ---------------------------------------------------------- test_given

  /** The answer value a quiz submission stores when no option was chosen. */
  const Unanswered: string := "0"

  /** `/testupdate` stores an empty option as 0 and any other option as sent:
      the empty text is never stored. */
  function OptionValue(option: string): (v: string)
    ensures v != ""
    ensures option != "" ==> v == option
    ensures option == "" ==> v == Unanswered
  {
    if option != "" then option else Unanswered
  }

  /** `/testupdate`: records a user's answer to a question, rewriting the
      answer and type of the (question, user) row when one exists, and
      inserting a row that also carries the test id otherwise. */
  method TestUpdate(given: Table<Answer>, option: string, qid: nat, kind: string, testId: nat, userId: nat)
    requires given.Valid()
    modifies given
    ensures given.Valid()
    ensures given.rows == Upsert(old(given.rows), AnswerKey, (qid, userId), WithAnswer(OptionValue(option), kind),
                                 Row(old(given.next), Answer(testId, qid, OptionValue(option), userId, kind)))
    ensures given.next == old(given.next) + (if Count(old(given.rows), KeyIs(AnswerKey, (qid, userId))) > 0 then 0 else 1)
  {
    var optionValue := OptionValue(option);
    var p := KeyIs(AnswerKey, (qid, userId));
    var checkF := given.Select(p);
    if |checkF| > 0 {
      var _ := given.Update(p, WithAnswer(optionValue, kind));
    } else {
      var _ := given.Insert(Answer(testId, qid, optionValue, userId, kind));
    }
  }

  /** After `/testupdate` every answer of the user to the question holds the
      submitted answer and type (the last submission wins), an answered
      question gains no row, and at most one answer per (question, user) is
      kept. */
  lemma TestUpdateKeepsOneAnswer(rows: seq<Row<Answer>>, next: nat, option: string, qid: nat, kind: string, testId: nat, userId: nat)
    ensures var after := Upsert(rows, AnswerKey, (qid, userId), WithAnswer(OptionValue(option), kind),
                                Row(next, Answer(testId, qid, OptionValue(option), userId, kind)));
      && Count(after, KeyIs(AnswerKey, (qid, userId))) ==
           (if Count(rows, KeyIs(AnswerKey, (qid, userId))) > 0 then Count(rows, KeyIs(AnswerKey, (qid, userId))) else 1)
      && (forall i :: 0 <= i < |after| && AnswerKey(after[i].val) == (qid, userId) ==>
            after[i].val.ansId == OptionValue(option) && after[i].val.kind == kind)
      && (UniqueKey(rows, AnswerKey) ==> UniqueKey(after, AnswerKey) && Count(after, KeyIs(AnswerKey, (qid, userId))) == 1)
  {
    var ans := OptionValue(option);
    var answered := (v: Answer) => v.ansId == ans && v.kind == kind;
    assert forall v :: AnswerKey(WithAnswer(ans, kind)(v)) == AnswerKey(v);
    assert forall v :: answered(WithAnswer(ans, kind)(v));
    UpsertKeyed(rows, AnswerKey, (qid, userId), WithAnswer(ans, kind), Row(next, Answer(testId, qid, ans, userId, kind)), answered);
  }

  /** Two `/testupdate` submissions for the same question and user: the
      pair's rows hold the second answer and type, and a re-submission adds no
      row, so a question answered once keeps a single answer. */
  method TestUpdateTwice(given: Table<Answer>, first: string, second: string, qid: nat, kind: string, testId: nat, userId: nat)
    requires given.Valid()
    modifies given
    ensures given.Valid()
    ensures |given.rows| == |old(given.rows)| + (if Count(old(given.rows), KeyIs(AnswerKey, (qid, userId))) > 0 then 0 else 1)
    ensures Count(given.rows, KeyIs(AnswerKey, (qid, userId))) ==
      (if Count(old(given.rows), KeyIs(AnswerKey, (qid, userId))) > 0 then Count(old(given.rows), KeyIs(AnswerKey, (qid, userId))) else 1)
    ensures forall i :: 0 <= i < |given.rows| && AnswerKey(given.rows[i].val) == (qid, userId) ==>
      given.rows[i].val.ansId == OptionValue(second) && given.rows[i].val.kind == kind
    ensures UniqueKey(old(given.rows), AnswerKey) ==> UniqueKey(given.rows, AnswerKey)
  {
    ghost var r0 := given.rows;
    ghost var n0 := given.next;
    TestUpdateKeepsOneAnswer(r0, n0, first, qid, kind, testId, userId);
    TestUpdateKeepsTestIds(r0, n0, first, qid, kind, testId, userId);
    TestUpdate(given, first, qid, kind, testId, userId);
    ghost var r1 := given.rows;
    TestUpdateKeepsOneAnswer(r1, given.next, second, qid, kind, testId, userId);
    TestUpdateKeepsTestIds(r1, given.next, second, qid, kind, testId, userId);
    TestUpdate(given, second, qid, kind, testId, userId);
  }

  /** An answer rewrite keeps every row's id, test id and key: an existing
      row's test id is left as it was. */
  lemma TestUpdateKeepsTestIds(rows: seq<Row<Answer>>, next: nat, option: string, qid: nat, kind: string, testId: nat, userId: nat)
    ensures var after := Upsert(rows, AnswerKey, (qid, userId), WithAnswer(OptionValue(option), kind),
                                Row(next, Answer(testId, qid, OptionValue(option), userId, kind)));
      && |after| >= |rows|
      && forall i :: 0 <= i < |rows| ==>
           after[i].id == rows[i].id && after[i].val.testId == rows[i].val.testId && AnswerKey(after[i].val) == AnswerKey(rows[i].val)
  {
    var after := Upsert(rows, AnswerKey, (qid, userId), WithAnswer(OptionValue(option), kind),
                        Row(next, Answer(testId, qid, OptionValue(option), userId, kind)));
    var p := KeyIs(AnswerKey, (qid, userId));
    forall i | 0 <= i < |rows|
      ensures after[i].id == rows[i].id && after[i].val.testId == rows[i].val.testId && AnswerKey(after[i].val) == AnswerKey(rows[i].val)
    {
      if Count(rows, p) > 0 && p(rows[i]) {
        assert after[i].val == WithAnswer(OptionValue(option), kind)(rows[i].val);
      }
    }
  }
}
