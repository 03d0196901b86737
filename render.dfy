/**
 * The list-item serialiser of src/main.js: `bookTemplate` renders one book as an
 * `<li>` fragment by plain string concatenation (no escaping), and `booksTemplates`
 * renders a fetched list, last book first.
 *
 * As a partner for the serialiser this module also has a reader for the exact
 * fragment shape (`ParseItem`, `ParseItems`); it is not an HTML parser, only the
 * inverse of the template on fields that hold none of the template's delimiters.
 */
module Render {
  import opened Wrappers

  /** A book as the server returns it. */
  datatype Book = Book(id: string, author: string, title: string, description: string)

  /** The constant text between the fields of one list item, in order. */
  const ItemOpen:    string := "\n       <li data-id=\""
  const IdLabel:     string := "\">\n        <p><span>ID:</span> "
  const AuthorLabel: string := "</p>\n        <p><span>Author:</span> "
  const TitleLabel:  string := "</p>\n        <p><span>Title:</span> "
  const DescLabel:   string := "</p>\n        <p><span>Description:</span> "
  const ItemClose:   string := "</p>\n      </li>\n  "

  const ItemPieces: seq<string> := [ItemOpen, IdLabel, AuthorLabel, TitleLabel, DescLabel, ItemClose]

  /** The fields of a book in the order the template inserts them: the id twice
      (attribute, then text), then author, title and description. */
  function Fields(b: Book): seq<string>
  {
    [b.id, b.id, b.author, b.title, b.description]
  }

  /** `bookTemplate`: the fields inserted verbatim between the fixed pieces. The
      item opens with the `data-id` attribute holding the id and ends with `</li>`. */
  function BookTemplate(b: Book): (r: string)
    ensures ItemOpen + b.id + "\"" <= r
    ensures |r| >= |ItemClose| && r[|r| - |ItemClose|..] == ItemClose
  {
    var tail := DescLabel + b.description + ItemClose;
    var afterId := IdLabel + b.id + (AuthorLabel + b.author + (TitleLabel + b.title + tail));
    assert afterId[0] == IdLabel[0] == '"';
    ItemOpen + b.id + afterId
  }

  /** Interleaves `pieces` with `fields`: pieces[0] + fields[0] + pieces[1] + ... */
  function Fill(pieces: seq<string>, fields: seq<string>): string
    requires |pieces| == |fields| + 1
    decreases fields
  {
    if fields == [] then pieces[0]
    else pieces[0] + fields[0] + Fill(pieces[1..], fields[1..])
  }

  /** The template is the fixed pieces with the fields inserted verbatim, in the
      order id, id, author, title, description. */
  lemma BookTemplateShape(b: Book)
    ensures BookTemplate(b) == Fill(ItemPieces, Fields(b))
  {
    var f := Fields(b);
    FillStep(ItemPieces, f, 4);
    FillStep(ItemPieces, f, 3);
    FillStep(ItemPieces, f, 2);
    FillStep(ItemPieces, f, 1);
    FillStep(ItemPieces, f, 0);
  }

  /** One unfolding of `Fill` on the suffixes from position k. */
  lemma FillStep(pieces: seq<string>, fields: seq<string>, k: nat)
    requires |pieces| == |fields| + 1 && k < |fields|
    ensures Fill(pieces[k..], fields[k..]) == pieces[k] + fields[k] + Fill(pieces[k + 1..], fields[k + 1..])
  {
    assert pieces[k..][1..] == pieces[k + 1..];
    assert fields[k..][1..] == fields[k + 1..];
  }

  /** Concatenation of a list of strings (`join('')`). */
  function Join(parts: seq<string>): string
  {
    if parts == [] then "" else parts[0] + Join(parts[1..])
  }

  function Reverse<T>(s: seq<T>): (r: seq<T>)
    ensures |r| == |s|
  {
    if s == [] then [] else Reverse(s[1..]) + [s[0]]
  }

  /** `books.map(bookTemplate)` */
  function Templates(books: seq<Book>): (r: seq<string>)
    ensures |r| == |books|
  {
    seq(|books|, i requires 0 <= i < |books| => BookTemplate(books[i]))
  }

  /** `booksTemplates`: map, reverse, join. Nothing renders as nothing, and the
      rendering starts with the item of the last book. */
  function BooksTemplates(books: seq<Book>): (r: string)
    ensures books == [] ==> r == ""
    ensures books != [] ==> BookTemplate(books[|books| - 1]) <= r
  {
    var r := Join(Reverse(Templates(books)));
    if books == [] then r
    else
      var n := |books| - 1;
      assert books == books[..n] + [books[n]];
      assert Templates(books) == Templates(books[..n]) + [BookTemplate(books[n])];
      ReverseAppendSingle(Templates(books[..n]), BookTemplate(books[n]));
      var t := [BookTemplate(books[n])] + Reverse(Templates(books[..n]));
      assert t[0] == BookTemplate(books[n]) && t[1..] == Reverse(Templates(books[..n]));
      r
  }

  /** The markup of list items in document order. */
  function ListMarkup(items: seq<Book>): string
  {
    Join(Templates(items))
  }

  // ---------------------------------------------------------------------------
  // Properties of the serialiser

  lemma {:induction false} ReverseAt<T>(s: seq<T>, k: nat)
    requires k < |s|
    ensures Reverse(s)[k] == s[|s| - 1 - k]
  {
    if k < |s| - 1 {
      ReverseAt(s[1..], k);
    }
  }

  lemma {:induction false} JoinAppend(a: seq<string>, b: seq<string>)
    ensures Join(a + b) == Join(a) + Join(b)
  {
    if a != [] {
      assert (a + b)[0] == a[0];
      assert (a + b)[1..] == a[1..] + b;
      JoinAppend(a[1..], b);
      assert Join(a + b) == a[0] + (Join(a[1..]) + Join(b));
    } else {
      assert a + b == b;
    }
  }

  /** Rendering the fetched list equals rendering the reversed list in order:
      the last book fetched is the first item of the list. */
  lemma BooksTemplatesIsReversedList(books: seq<Book>)
    ensures BooksTemplates(books) == ListMarkup(Reverse(books))
  {
    ReverseTemplates(books);
  }

  /** Mapping the template commutes with reversal. */
  lemma {:induction false} ReverseTemplates(books: seq<Book>)
    ensures Reverse(Templates(books)) == Templates(Reverse(books))
  {
    var rb, t := Reverse(books), Templates(books);
    forall k | 0 <= k < |books|
      ensures Reverse(t)[k] == Templates(rb)[k]
    {
      ReverseAt(t, k);
      ReverseAt(books, k);
    }
  }

  /** Appending a book to the fetched list puts its item in front of the rest. */
  lemma {:induction false} BooksTemplatesSnoc(books: seq<Book>, b: Book)
    ensures BooksTemplates(books + [b]) == BookTemplate(b) + BooksTemplates(books)
  {
    var t := Templates(books + [b]);
    assert t == Templates(books) + [BookTemplate(b)];
    ReverseAppendSingle(Templates(books), BookTemplate(b));
    var r := [BookTemplate(b)] + Reverse(Templates(books));
    assert r[0] == BookTemplate(b) && r[1..] == Reverse(Templates(books));
  }

  lemma {:induction false} ReverseAppendSingle<T>(s: seq<T>, x: T)
    ensures Reverse(s + [x]) == [x] + Reverse(s)
  {
    if s == [] {
      assert Reverse([x]) == Reverse([x][1..]) + [x];
    } else {
      assert (s + [x])[1..] == s[1..] + [x];
      ReverseAppendSingle(s[1..], x);
    }
  }

  /** The list markup of `[b] + rest` is b's item followed by the rest. */
  lemma ListMarkupCons(b: Book, rest: seq<Book>)
    ensures ListMarkup([b] + rest) == BookTemplate(b) + ListMarkup(rest)
  {
    assert Templates([b] + rest)[1..] == Templates(rest);
  }

  // ---------------------------------------------------------------------------
  // A reader for the exact fragment shape, the partner of the serialiser

  /** Index of the first occurrence of `c` in `s`. */
  function Find(c: char, s: string): (r: Option<nat>)
    ensures r.Some? ==> r.value < |s| && s[r.value] == c && c !in s[..r.value]
    ensures r.None? ==> c !in s
  {
    if s == [] then None
    else if s[0] == c then Some(0)
    else match Find(c, s[1..])
      case None => None
      case Some(k) => assert s[1..][..k] == s[1..k + 1]; Some(k + 1)
  }

  /** Every piece after the first is non-empty, so each field ends where the
      first character of the next piece occurs. */
  predicate WellFormed(pieces: seq<string>)
  {
    |pieces| >= 1 && forall i :: 1 <= i < |pieces| ==> pieces[i] != []
  }

  /** Reads `pieces` interleaved with fields from the front of `s`; each field
      extends up to the first occurrence of the next piece's first character.
      Returns the fields and what follows the last piece. */
  function Unfill(pieces: seq<string>, s: string): (r: Option<(seq<string>, string)>)
    requires WellFormed(pieces)
    ensures r.Some? ==> |r.value.0| == |pieces| - 1 && |r.value.1| + |pieces[0]| <= |s|
    decreases |pieces|
  {
    if !(pieces[0] <= s) then None
    else
      var rest := s[|pieces[0]|..];
      if |pieces| == 1 then Some(([], rest))
      else match Find(pieces[1][0], rest)
        case None => None
        case Some(k) =>
          match Unfill(pieces[1..], rest[k..])
            case None => None
            case Some((fs, tail)) => Some(([rest[..k]] + fs, tail))
  }

  /** A book whose fields hold none of the characters that end them in the
      template: no `"` or `<` in the id, no `<` in the other fields. */
  predicate Plain(b: Book)
  {
    '"' !in b.id && '<' !in b.id && '<' !in b.author && '<' !in b.title && '<' !in b.description
  }

  /** Reads one list item from the front of `s`; the id in the attribute and in
      the text must agree. */
  function ParseItem(s: string): (r: Option<(Book, string)>)
    ensures r.Some? ==> |r.value.1| < |s|
  {
    match Unfill(ItemPieces, s)
      case None => None
      case Some((fs, tail)) =>
        if fs[0] == fs[1] then Some((Book(fs[0], fs[2], fs[3], fs[4]), tail)) else None
  }

  /** Reads a whole list of items. */
  function ParseItems(s: string): Option<seq<Book>>
    decreases |s|
  {
    if s == [] then Some([])
    else match ParseItem(s)
      case None => None
      case Some((b, tail)) =>
        match ParseItems(tail)
          case None => None
          case Some(bs) => Some([b] + bs)
  }

  lemma {:induction false} FindAfter(c: char, f: string, rest: string)
    requires c !in f && rest != [] && rest[0] == c
    ensures Find(c, f + rest) == Some(|f|)
  {
    if f != [] {
      assert (f + rest)[1..] == f[1..] + rest;
      FindAfter(c, f[1..], rest);
    }
  }

  /** Interleaved text starts with the first piece. */
  lemma FillStartsWith(pieces: seq<string>, fields: seq<string>)
    requires |pieces| == |fields| + 1
    ensures pieces[0] <= Fill(pieces, fields)
  {
    if fields != [] {
      assert Fill(pieces, fields) == pieces[0] + (fields[0] + Fill(pieces[1..], fields[1..]));
    }
  }

  /** After the first piece comes the first field, then the rest interleaved. */
  lemma FillSplit(pieces: seq<string>, fields: seq<string>, tail: string)
    requires |pieces| == |fields| + 1 && fields != []
    ensures pieces[0] <= Fill(pieces, fields) + tail
    ensures (Fill(pieces, fields) + tail)[|pieces[0]|..]
            == fields[0] + (Fill(pieces[1..], fields[1..]) + tail)
  {
    var rest := Fill(pieces[1..], fields[1..]);
    assert Fill(pieces, fields) + tail == pieces[0] + (fields[0] + (rest + tail));
  }

  /** Reading back interleaved text recovers the fields and the remainder,
      provided no field holds the first character of the piece after it. */
  lemma {:induction false} UnfillFill(pieces: seq<string>, fields: seq<string>, tail: string)
    requires WellFormed(pieces) && |pieces| == |fields| + 1
    requires forall i :: 0 <= i < |fields| ==> pieces[i + 1][0] !in fields[i]
    ensures Unfill(pieces, Fill(pieces, fields) + tail) == Some((fields, tail))
    decreases fields
  {
    var s := Fill(pieces, fields) + tail;
    if fields == [] {
      assert s[|pieces[0]|..] == tail;
    } else {
      var p1, f1 := pieces[1..], fields[1..];
      var after := Fill(p1, f1) + tail;
      FillSplit(pieces, fields, tail);
      FillStartsWith(p1, f1);
      assert after[0] == pieces[1][0];
      FindAfter(pieces[1][0], fields[0], after);
      var rest := fields[0] + after;
      assert rest[..|fields[0]|] == fields[0] && rest[|fields[0]|..] == after;
      assert WellFormed(p1);
      assert forall i :: 0 <= i < |f1| ==> p1[i + 1] == pieces[i + 2] && f1[i] == fields[i + 1];
      UnfillFill(p1, f1, tail);
      assert [fields[0]] + f1 == fields;
    }
  }

  /** The item reader inverts `bookTemplate` on plain books. */
  lemma ParseBookTemplate(b: Book, tail: string)
    requires Plain(b)
    ensures ParseItem(BookTemplate(b) + tail) == Some((b, tail))
  {
    BookTemplateShape(b);
    assert WellFormed(ItemPieces);
    assert IdLabel[0] == '"' && AuthorLabel[0] == '<' && TitleLabel[0] == '<';
    assert DescLabel[0] == '<' && ItemClose[0] == '<';
    UnfillFill(ItemPieces, Fields(b), tail);
  }

  /** The list reader inverts the rendering of a list of plain books. */
  lemma {:induction false} ParseListMarkup(items: seq<Book>)
    requires forall i :: 0 <= i < |items| ==> Plain(items[i])
    ensures ParseItems(ListMarkup(items)) == Some(items)
  {
    if items != [] {
      assert items == [items[0]] + items[1..];
      ListMarkupCons(items[0], items[1..]);
      ParseBookTemplate(items[0], ListMarkup(items[1..]));
      ParseListMarkup(items[1..]);
      assert BookTemplate(items[0]) != [];
    }
  }

  /** Reading back what `booksTemplates` renders gives the fetched list reversed. */
  lemma ParseBooksTemplates(books: seq<Book>)
    requires forall i :: 0 <= i < |books| ==> Plain(books[i])
    ensures ParseItems(BooksTemplates(books)) == Some(Reverse(books))
  {
    BooksTemplatesIsReversedList(books);
    forall i | 0 <= i < |books| ensures Plain(Reverse(books)[i]) {
      ReverseAt(books, i);
    }
    ParseListMarkup(Reverse(books));
  }
}
