/** The catalogue (routers/books.py): derived availability, the book listing
    and detail, the hold queue, the cover-image extension check and the admin
    create/update/delete of book rows. */
module Books {
  import opened Common
  import opened Query
  import opened Models
  import opened Store
  import opened Loans

  // Availability: copies not out on an approved, unreturned loan.

  function ApprovedOutOn(bookId: int): Loan -> bool {
    (l: Loan) => l.bookId == bookId && l.status == "approved" && !l.returned
  }

  /** `quantity` less the book's approved, unreturned loans. */
  function Available(b: Book, loans: seq<Loan>): (a: int)
    ensures a <= b.quantity
  {
    b.quantity - Count(loans, ApprovedOutOn(b.id))
  }

  /** The loans the handlers create stay "pending", so while no loan is
      approved the availability is the raw `quantity`. */
  lemma AvailableWhileNoneApproved(b: Book, loans: seq<Loan>)
    requires NoneApproved(loans)
    ensures Available(b, loans) == b.quantity
  {
    CountNone(loans, ApprovedOutOn(b.id));
  }

  /** Availability never subtracts more loans than the book has out. */
  lemma AvailableAtLeastShelf(b: Book, loans: seq<Loan>)
    ensures Available(b, loans) >= b.quantity - Outstanding(loans, b.id)
  {
    CountMonotone(loans, ApprovedOutOn(b.id), OutstandingOn(b.id));
  }

  /** A book as the listing and the detail return it. */
  datatype BookView = BookView(row: Book, available: int)

  /** `get_books`: one view per book, in table order, each with the row as
      stored and its derived availability. */
  method GetBooks(books: seq<Book>, loans: seq<Loan>) returns (result: seq<BookView>)
    ensures |result| == |books|
    ensures forall k | 0 <= k < |books| ::
              result[k].row == books[k] && result[k].available == Available(books[k], loans)
    ensures NoneApproved(loans) ==> forall k | 0 <= k < |books| :: result[k].available == books[k].quantity
  {
    result := [];
    for k := 0 to |books|
      invariant |result| == k
      invariant forall m | 0 <= m < k ::
                  result[m].row == books[m] && result[m].available == Available(books[m], loans)
    {
      var borrowed := Count(loans, ApprovedOutOn(books[k].id));
      result := result + [BookView(books[k], books[k].quantity - borrowed)];
    }
    if NoneApproved(loans) {
      forall k | 0 <= k < |books| ensures result[k].available == books[k].quantity {
        AvailableWhileNoneApproved(books[k], loans);
      }
    }
  }

  /** `get_book`: 404 for a missing id, otherwise the row and its availability. */
  function GetBook(books: seq<Book>, loans: seq<Loan>, id: int): (r: Result<BookView>)
    ensures r.Err? <==> forall k | 0 <= k < |books| :: books[k].id != id
    ensures r.Err? ==> r.error == HttpError(404, "Book not found")
    ensures r.Ok? ==> && r.value.row in books && r.value.row.id == id
                      && r.value.available == Available(r.value.row, loans)
  {
    match FindBook(books, id)
    case None => Err(HttpError(404, "Book not found"))
    case Some(i) => Ok(BookView(books[i], Available(books[i], loans)))
  }

  // The hold queue.

  /** Some hold of `userId` on `bookId` exists. */
  predicate HasHold(holds: seq<HoldRequest>, userId: int, bookId: int) {
    exists k | 0 <= k < |holds| :: holds[k].userId == userId && holds[k].bookId == bookId
  }

  /** No user holds the same book twice. */
  predicate HoldPairsUnique(holds: seq<HoldRequest>) {
    forall i, j | 0 <= i < j < |holds| ::
      holds[i].userId != holds[j].userId || holds[i].bookId != holds[j].bookId
  }

  /** The checks of `place_hold`, in the order the handler makes them: the
      first that fails decides the error, and none failing admits the hold. */
  function HoldRefusal(callerId: int, callerRole: string, bookId: int, books: seq<Book>,
                       loans: seq<Loan>, holds: seq<HoldRequest>): (e: Option<HttpError>)
    ensures callerRole != "student" ==> e == Some(HttpError(403, "Only students can place holds."))
    ensures callerRole == "student" && FindBook(books, bookId).None? ==>
              e == Some(HttpError(404, "Book not found."))
    ensures callerRole == "student" && FindBook(books, bookId).Some? ==>
              var available := Available(books[FindBook(books, bookId).value], loans);
              && (available > 0 ==>
                    e == Some(HttpError(400, "Book is currently available. No need to hold.")))
              && (available <= 0 && HasHold(holds, callerId, bookId) ==>
                    e == Some(HttpError(400, "You have already placed a hold on this book.")))
    ensures e.None? <==> && callerRole == "student" && FindBook(books, bookId).Some?
                         && Available(books[FindBook(books, bookId).value], loans) <= 0
                         && !HasHold(holds, callerId, bookId)
  {
    if callerRole != "student" then Some(HttpError(403, "Only students can place holds."))
    else match FindBook(books, bookId)
      case None => Some(HttpError(404, "Book not found."))
      case Some(i) =>
        if Available(books[i], loans) > 0 then
          Some(HttpError(400, "Book is currently available. No need to hold."))
        else if HasHold(holds, callerId, bookId) then
          Some(HttpError(400, "You have already placed a hold on this book."))
        else None
  }

  /** Once a hold is admitted and recorded, the same user's next hold on the
      same book is refused as a duplicate. */
  lemma SecondHoldRefused(callerId: int, callerRole: string, bookId: int, books: seq<Book>,
                          loans: seq<Loan>, holds: seq<HoldRequest>, hold: HoldRequest)
    requires HoldRefusal(callerId, callerRole, bookId, books, loans, holds).None?
    requires hold.userId == callerId && hold.bookId == bookId
    ensures HoldRefusal(callerId, callerRole, bookId, books, loans, holds + [hold])
         == Some(HttpError(400, "You have already placed a hold on this book."))
  {
    assert (holds + [hold])[|holds|] == hold;
  }

  /** `place_hold`: runs the checks of HoldRefusal and, when they all pass,
      records one hold of the caller on the book dated today. */
  method PlaceHold(db: Database, callerId: int, callerRole: string, bookId: int, today: int)
    returns (r: Result<string>)
    requires db.Valid()
    modifies db
    ensures db.Valid()
    ensures db.books == old(db.books) && db.users == old(db.users) && db.loans == old(db.loans)
    ensures var refusal := HoldRefusal(callerId, callerRole, bookId, old(db.books), old(db.loans), old(db.holds));
            && (refusal.Some? ==> r == Err(refusal.value) && db.holds == old(db.holds))
            && (refusal.None? ==>
                  && r == Ok("You have been placed on the waitlist for '"
                             + old(db.books)[FindBook(old(db.books), bookId).value].title + "'.")
                  && db.holds == old(db.holds)
                       + [HoldRequest(NextHoldId(old(db.holds)), callerId, bookId, Some(today))])
    ensures r.Ok? ==> HasHold(db.holds, callerId, bookId)
    ensures HoldPairsUnique(old(db.holds)) ==> HoldPairsUnique(db.holds)
  {
    var refusal := HoldRefusal(callerId, callerRole, bookId, db.books, db.loans, db.holds);
    if refusal.Some? {
      r := Err(refusal.value);
      return;
    }
    var hold := HoldRequest(NextHoldId(db.holds), callerId, bookId, Some(today));
    assert (db.holds + [hold])[|db.holds|] == hold;
    HoldAppendedFresh(db.holds, hold);
    db.holds := db.holds + [hold];
    r := Ok("You have been placed on the waitlist for '" + db.books[FindBook(db.books, bookId).value].title + "'.");
  }

  // Cover images.

  /** `name.split(".")[-1]`: what follows the last dot, or the whole name. */
  function LastSegment(s: string): (r: string)
    ensures '.' !in r
    ensures |r| <= |s| && r == s[|s| - |r|..]
    ensures |r| < |s| ==> s[|s| - |r| - 1] == '.'
  {
    if s == [] then []
    else if s[|s| - 1] == '.' then []
    else LastSegment(s[..|s| - 1]) + [s[|s| - 1]]
  }

  /** The segment after an appended dot is exactly what was appended. */
  lemma {:induction false} LastSegmentAfterDot(prefix: string, seg: string)
    requires '.' !in seg
    ensures LastSegment(prefix + "." + seg) == seg
  {
    var s := prefix + "." + seg;
    if seg != [] {
      var init := seg[..|seg| - 1];
      assert s[..|s| - 1] == prefix + "." + init;
      assert s[|s| - 1] == seg[|seg| - 1];
      LastSegmentAfterDot(prefix, init);
      assert init + [seg[|seg| - 1]] == seg;
    }
  }

  function LowerChar(c: char): char {
    if 'A' <= c <= 'Z' then (c as int + 32) as char else c
  }

  /** `str.lower()` on ASCII letters. */
  function Lower(s: string): (r: string)
    ensures |r| == |s|
    ensures forall k | 0 <= k < |r| :: !('A' <= r[k] <= 'Z')
    ensures forall k | 0 <= k < |s| :: !('A' <= s[k] <= 'Z') ==> r[k] == s[k]
    ensures forall k | 0 <= k < |s| :: 'A' <= s[k] <= 'Z' ==> r[k] as int == s[k] as int + 32
  {
    seq(|s|, k requires 0 <= k < |s| => LowerChar(s[k]))
  }

  const ImageExtensions: seq<string> := ["jpg", "jpeg", "png", "webp"]

  const UnsupportedImage := HttpError(400, "Unsupported image format")

  /** The extension check of `create_book` and `update_book`. */
  function CoverExtension(filename: string): (r: Result<string>)
    ensures r.Err? ==> r.error == UnsupportedImage
    ensures r.Ok? ==> r.value in ImageExtensions
  {
    var ext := Lower(LastSegment(filename));
    if ext in ImageExtensions then Ok(ext) else Err(UnsupportedImage)
  }

  predicate EndsWith(s: string, suffix: string) {
    |suffix| <= |s| && s[|s| - |suffix|..] == suffix
  }

  lemma LowerTakesSuffix(s: string, n: nat)
    requires n <= |s|
    ensures Lower(s[n..]) == Lower(s)[n..]
  {
  }

  /** Lower-casing commutes with taking the last segment. */
  lemma LowerLastSegment(s: string)
    ensures Lower(LastSegment(s)) == LastSegment(Lower(s))
  {
    var r, t := LastSegment(s), LastSegment(Lower(s));
    // The dots sit at the same places in s and in Lower(s), so both segments
    // start after the same position.
    assert forall k | 0 <= k < |s| :: (Lower(s)[k] == '.') == (s[k] == '.');
    LowerTakesSuffix(s, |s| - |r|);
  }

  /** A name without a dot is its own last segment. */
  lemma {:induction false} LastSegmentDotFree(e: string)
    requires '.' !in e
    ensures LastSegment(e) == e
  {
    if e != [] {
      var init := e[..|e| - 1];
      assert e[|e| - 1] in e;
      assert forall c | c in init :: c in e;
      LastSegmentDotFree(init);
      assert init + [e[|e| - 1]] == e;
    }
  }

  /** With no dot in `e`, the last segment of `t` is `e` exactly when `t` is
      `e` or ends in "." + `e`. */
  lemma LastSegmentIs(t: string, e: string)
    requires '.' !in e
    ensures LastSegment(t) == e <==> t == e || EndsWith(t, "." + e)
  {
    var r := LastSegment(t);
    if t == e {
      LastSegmentDotFree(e);
    } else if EndsWith(t, "." + e) {
      var prefix := t[..|t| - |e| - 1];
      assert t == prefix + "." + e;
      LastSegmentAfterDot(prefix, e);
    }
    if r == e {
      if |r| == |t| {
        assert t[0..] == t;
      } else {
        assert t[|t| - |e| - 1..] == "." + e;
      }
    }
  }

  /** A cover file is accepted exactly when its lower-cased name is one of the
      four extensions or ends in a dot followed by one of them. */
  lemma CoverAcceptedIffSuffix(filename: string)
    ensures CoverExtension(filename).Ok? <==>
              exists e :: e in ImageExtensions && (Lower(filename) == e || EndsWith(Lower(filename), "." + e))
  {
    var low := Lower(filename);
    var ext := LastSegment(low);
    LowerLastSegment(filename);
    if ext in ImageExtensions {
      LastSegmentIs(low, ext);
    }
    forall e | e in ImageExtensions && (low == e || EndsWith(low, "." + e))
      ensures ext in ImageExtensions
    {
      ImageExtensionShape(e);
      LastSegmentIs(low, e);
    }
  }

  /** The extension a cover is accepted with is the one its own lower-cased
      name is, or ends in after a dot. */
  lemma CoverExtensionIs(filename: string, e: string)
    ensures CoverExtension(filename) == Ok(e) <==>
              e in ImageExtensions && (Lower(filename) == e || EndsWith(Lower(filename), "." + e))
  {
    LowerLastSegment(filename);
    if e in ImageExtensions {
      ImageExtensionShape(e);
      LastSegmentIs(Lower(filename), e);
    }
  }

  const CoverDir := "/static/book-covers/"

  /** An uploaded cover: the client's file name and the name the server
      generates for the stored copy. */
  datatype Upload = Upload(filename: string, generatedName: string)

  /** The URL under which a stored cover is served. */
  function CoverUrl(generatedName: string, ext: string): (url: string)
    ensures EndsWith(url, "." + ext)
    ensures |CoverDir| <= |url| && url[..|CoverDir|] == CoverDir
    ensures |url| == |CoverDir| + |generatedName| + 1 + |ext|
    ensures url[|CoverDir|..|url| - |ext| - 1] == generatedName
  {
    var url := (CoverDir + generatedName) + ("." + ext);
    assert url[|url| - |"." + ext|..] == "." + ext;
    url
  }

  /** The URL stored for an upload, or the extension check's error. */
  function StoredCoverUrl(upload: Upload): (r: Result<string>)
    ensures r.Err? <==> CoverExtension(upload.filename).Err?
    ensures r.Err? ==> r.error == UnsupportedImage
    ensures r.Ok? ==> r.value == CoverUrl(upload.generatedName, CoverExtension(upload.filename).value)
  {
    match CoverExtension(upload.filename)
    case Err(e) => Err(e)
    case Ok(ext) => Ok(CoverUrl(upload.generatedName, ext))
  }

  /** The accepted extensions are lower-case and hold no dot. */
  lemma ImageExtensionShape(ext: string)
    requires ext in ImageExtensions
    ensures '.' !in ext && Lower(ext) == ext
  {
    assert ext == "jpg" || ext == "jpeg" || ext == "png" || ext == "webp";
    assert forall k | 0 <= k < |ext| :: 'a' <= ext[k] <= 'z';
  }

  /** The URL of an accepted cover would itself pass the extension check, with
      the same extension. */
  lemma CoverUrlPassesCheck(generatedName: string, ext: string)
    requires ext in ImageExtensions
    ensures CoverExtension(CoverUrl(generatedName, ext)) == Ok(ext)
  {
    ImageExtensionShape(ext);
    CoverUrlSegment(generatedName, ext);
  }

  /** The last segment of a cover URL is the extension it was built with. */
  lemma CoverUrlSegment(generatedName: string, ext: string)
    requires '.' !in ext
    ensures LastSegment(CoverUrl(generatedName, ext)) == ext
  {
    LastSegmentAfterDot(CoverDir + generatedName, ext);
    assert (CoverDir + generatedName) + "." + ext == CoverUrl(generatedName, ext);
  }

  // Book rows.

  /** `create_book`: refuses (400) an unsupported cover; otherwise adds one row
      with the given fields and the stored cover URL. A duplicate isbn fails
      the unique constraint at commit (500) and nothing is added. */
  method CreateBook(db: Database, title: string, author: string, isbn: string, quantity: int,
                    description: string, category: string, cover: Upload)
    returns (r: Result<Book>)
    requires db.Valid()
    modifies db
    ensures db.Valid()
    ensures db.users == old(db.users) && db.loans == old(db.loans) && db.holds == old(db.holds)
    ensures StoredCoverUrl(cover).Err? ==> r == Err(UnsupportedImage) && db.books == old(db.books)
    ensures StoredCoverUrl(cover).Ok? && !IsbnFree(old(db.books), isbn) ==>
              r == Err(InternalServerError) && db.books == old(db.books)
    ensures r.Ok? <==> StoredCoverUrl(cover).Ok? && IsbnFree(old(db.books), isbn)
    ensures r.Ok? ==>
              && r.value == Book(NextBookId(old(db.books)), title, author, isbn, quantity,
                                 Some(description), Some(category), Some(StoredCoverUrl(cover).value))
              && db.books == old(db.books) + [r.value]
  {
    var url := StoredCoverUrl(cover);
    if url.Err? {
      r := Err(url.error);
      return;
    }
    var row := Book(NextBookId(db.books), title, author, isbn, quantity,
                    Some(description), Some(category), Some(url.value));
    r := AddBook(db, row);
  }

  /** `db.add(new_book); db.commit()`: the unique constraint on isbn is
      checked at commit; a clash is a 500 and the row is not added. */
  method AddBook(db: Database, row: Book) returns (r: Result<Book>)
    requires db.Valid()
    requires forall k | 0 <= k < |db.books| :: db.books[k].id < row.id
    modifies db
    ensures db.Valid()
    ensures db.users == old(db.users) && db.loans == old(db.loans) && db.holds == old(db.holds)
    ensures r.Ok? <==> IsbnFree(old(db.books), row.isbn)
    ensures r.Err? ==> r == Err(InternalServerError) && db.books == old(db.books)
    ensures r.Ok? ==> r.value == row && db.books == old(db.books) + [row]
  {
    var candidate := db.books + [row];
    IsbnUniqueAppend(db.books, row);
    if !IsbnUnique(candidate) {
      r := Err(InternalServerError);
      return;
    }
    BookAppendedFresh(db.books, row);
    db.books := candidate;
    r := Ok(row);
  }

  /** The cover part of an edit: no upload keeps the stored URL (`None`); an
      upload gives its new URL, or the extension check's error. */
  function CoverChange(cover: Option<Upload>): (r: Result<Option<string>>)
    ensures cover.None? ==> r == Ok(None)
    ensures cover.Some? ==> (r.Err? <==> StoredCoverUrl(cover.value).Err?)
    ensures cover.Some? && r.Err? ==> r.error == UnsupportedImage
    ensures cover.Some? && r.Ok? ==> r.value == Some(StoredCoverUrl(cover.value).value)
  {
    match cover
    case None => Ok(None)
    case Some(upload) =>
      match StoredCoverUrl(upload)
      case Err(e) => Err(e)
      case Ok(url) => Ok(Some(url))
  }

  /** Book row `before` after an edit: the six form fields are overwritten,
      the cover URL only when a new one is given, and the id is kept. */
  function EditedBook(before: Book, title: string, author: string, isbn: string, quantity: int,
                      description: string, category: string, newCover: Option<string>): (b: Book)
    ensures b.id == before.id
    ensures && b.title == title && b.author == author && b.isbn == isbn && b.quantity == quantity
            && b.description == Some(description) && b.category == Some(category)
    ensures newCover.Some? ==> b.coverImageUrl == newCover
    ensures newCover.None? ==> b.coverImageUrl == before.coverImageUrl
  {
    before.(title := title, author := author, isbn := isbn, quantity := quantity,
            description := Some(description), category := Some(category),
            coverImageUrl := if newCover.Some? then newCover else before.coverImageUrl)
  }

  /** `update_book`: 404 for a missing id; otherwise the row becomes its edit.
      An unsupported cover (400) or an isbn another row has (500 at commit)
      leaves the row as it was. */
  method UpdateBook(db: Database, id: int, title: string, author: string, isbn: string, quantity: int,
                    description: string, category: string, cover: Option<Upload>)
    returns (r: Result<Book>)
    requires db.Valid()
    modifies db
    ensures db.Valid()
    ensures db.users == old(db.users) && db.loans == old(db.loans) && db.holds == old(db.holds)
    ensures r.Err? ==> db.books == old(db.books)
    ensures FindBook(old(db.books), id).None? ==> r == Err(HttpError(404, "Book not found"))
    ensures FindBook(old(db.books), id).Some? && CoverChange(cover).Err? ==> r == Err(UnsupportedImage)
    ensures (FindBook(old(db.books), id).Some? && CoverChange(cover).Ok?
             && !IsbnFreeFor(old(db.books), isbn, id)) ==> r == Err(InternalServerError)
    ensures r.Ok? <==> && FindBook(old(db.books), id).Some? && CoverChange(cover).Ok?
                       && IsbnFreeFor(old(db.books), isbn, id)
    ensures r.Ok? ==>
              var i := FindBook(old(db.books), id).value;
              && r.value == EditedBook(old(db.books)[i], title, author, isbn, quantity,
                                       description, category, CoverChange(cover).value)
              && db.books == old(db.books)[i := r.value]
  {
    var found := FindBook(db.books, id);
    if found.None? {
      r := Err(HttpError(404, "Book not found"));
      return;
    }
    var i := found.value;
    var newCover := CoverChange(cover);
    if newCover.Err? {
      r := Err(newCover.error);
      return;
    }
    var row := EditedBook(db.books[i], title, author, isbn, quantity, description, category,
                          newCover.value);
    r := SaveBook(db, i, row);
  }

  /** The commit of an edited book row: the unique constraint on isbn is
      checked at commit; a clash is a 500 and the row keeps its old fields. */
  method SaveBook(db: Database, i: nat, row: Book) returns (r: Result<Book>)
    requires db.Valid()
    requires i < |db.books| && row.id == db.books[i].id
    modifies db
    ensures db.Valid()
    ensures db.users == old(db.users) && db.loans == old(db.loans) && db.holds == old(db.holds)
    ensures r.Ok? <==> IsbnFreeFor(old(db.books), row.isbn, row.id)
    ensures r.Err? ==> r == Err(InternalServerError) && db.books == old(db.books)
    ensures r.Ok? ==> r.value == row && db.books == old(db.books)[i := row]
  {
    var candidate := db.books[i := row];
    IsbnUniqueUpdate(db.books, i, row);
    if !IsbnUnique(candidate) {
      r := Err(InternalServerError);
      return;
    }
    BookIdsKept(db.books, i, row);
    db.books := candidate;
    r := Ok(row);
  }

  /** `delete_book`: 404 for a missing id; otherwise removes exactly that row.
      Loans and holds that name the book are left as they are. */
  method DeleteBook(db: Database, id: int) returns (r: Result<string>)
    requires db.Valid()
    modifies db
    ensures db.Valid()
    ensures db.users == old(db.users) && db.loans == old(db.loans) && db.holds == old(db.holds)
    ensures r.Err? <==> FindBook(old(db.books), id).None?
    ensures r.Err? ==> r.error == HttpError(404, "Book not found") && db.books == old(db.books)
    ensures r.Ok? ==> && r.value == "Book deleted"
                      && db.books == RemoveAt(old(db.books), FindBook(old(db.books), id).value)
    ensures forall k | 0 <= k < |db.books| :: db.books[k].id != id
    ensures forall k | 0 <= k < |old(db.books)| :: old(db.books)[k].id != id ==> old(db.books)[k] in db.books
  {
    var found := FindBook(db.books, id);
    if found.None? {
      r := Err(HttpError(404, "Book not found"));
      return;
    }
    var i := found.value;
    var rest := RemoveAt(db.books, i);
    forall k | 0 <= k < |db.books| && k != i ensures db.books[k] in rest {
      if k < i { assert rest[k] == db.books[k]; } else { assert rest[k - 1] == db.books[k]; }
    }
    db.books := rest;
    r := Ok("Book deleted");
  }
}
