/**
 * `BooksApi` of src/main.js: the five requests it sends to the books collection
 * and the one rule it applies to every response (ok gives the parsed body,
 * anything else fails with an Error whose message is the status code).
 *
 * `fetch`, `res.json()` and `JSON.stringify` are not modelled: a request is a
 * value, and what comes back is a `Reply` carrying the already parsed body.
 */
module Api {
  import opened Wrappers

  /** A flat JSON object with string values, as built from a form. */
  type Record = map<string, string>

  const EndPoint: string := "/books"

  /** The API client; its base URL is a parameter of the model. */
  datatype BooksApi = BooksApi(baseUrl: string)

  datatype HttpMethod = GET | POST | PATCH | PUT | DELETE

  datatype Request = Request(verb: HttpMethod, url: string, headers: map<string, string>, body: Option<Record>)

  /** What a request yields: a response (its `ok` flag, status code and parsed
      body) or a failure of the transport itself. */
  datatype Reply<+T> = Received(ok: bool, status: nat, body: T) | NetworkFailure(message: string)

  /** A thrown JavaScript error; only its message is observed. */
  datatype Error = Error(message: string)

  const JsonHeaders: map<string, string> := map["Content-Type" := "application/json"]

  // ---------------------------------------------------------------------------
  // URLs

  /** `BASE_URL + END_POINT` */
  function CollectionUrl(api: BooksApi): (r: string)
    ensures api.baseUrl <= r && r[|api.baseUrl|..] == EndPoint
  {
    api.baseUrl + EndPoint
  }

  /** `${BASE_URL}${END_POINT}/${id}` */
  function ItemUrl(api: BooksApi, id: string): (r: string)
    ensures TargetId(api, r) == Some(id)
  {
    var r := api.baseUrl + EndPoint + "/" + id;
    assert r == (CollectionUrl(api) + "/") + id;
    r
  }

  /** The id a URL addresses below the collection, if it addresses one. */
  function TargetId(api: BooksApi, url: string): Option<string>
  {
    var prefix := CollectionUrl(api) + "/";
    if prefix <= url then Some(url[|prefix|..]) else None
  }

  /** The collection URL addresses no single item. */
  lemma CollectionUrlHasNoTarget(api: BooksApi)
    ensures TargetId(api, CollectionUrl(api)) == None
  {
  }

  /** Distinct ids give distinct item URLs. */
  lemma ItemUrlInjective(api: BooksApi, a: string, b: string)
    requires ItemUrl(api, a) == ItemUrl(api, b)
    ensures a == b
  {
  }

  // ---------------------------------------------------------------------------
  // The `{ id, ...book }` split

  /** The id as a template literal prints it: a missing property is "undefined". */
  function IdText(book: Record): (r: string)
    ensures "id" in book ==> r == book["id"]
    ensures "id" !in book ==> r == "undefined"
  {
    if "id" in book then book["id"] else "undefined"
  }

  /** The record without its id. */
  function WithoutId(book: Record): (r: Record)
    ensures "id" !in r
    ensures forall k :: k in r <==> k in book && k != "id"
    ensures forall k :: k in r ==> r[k] == book[k]
  {
    book - {"id"}
  }

  /** Splitting the id off and putting it back gives the original record. */
  lemma SplitRoundTrip(book: Record)
    requires "id" in book
    ensures WithoutId(book)["id" := IdText(book)] == book
  {
    var r := WithoutId(book)["id" := IdText(book)];
    assert r.Keys == book.Keys;
  }

  // ---------------------------------------------------------------------------
  // Requests

  /** `getBooks`: GET on the collection. */
  function GetBooksRequest(api: BooksApi): (r: Request)
    ensures r.verb == GET && r.body == None && r.url == CollectionUrl(api)
    ensures TargetId(api, r.url) == None
  {
    Request(GET, CollectionUrl(api), map[], None)
  }

  /** `createBook`: POST of the whole record to the collection. */
  function CreateBookRequest(api: BooksApi, book: Record): (r: Request)
    ensures r.verb == POST && r.body == Some(book) && r.url == CollectionUrl(api)
    ensures TargetId(api, r.url) == None && r.headers == JsonHeaders
  {
    Request(POST, CollectionUrl(api), JsonHeaders, Some(book))
  }

  /** `updateBook`: PATCH of the record minus its id, to that id's URL. */
  function UpdateBookRequest(api: BooksApi, book: Record): (r: Request)
    ensures r.verb == PATCH && TargetId(api, r.url) == Some(IdText(book))
    ensures r.body == Some(WithoutId(book)) && r.headers == JsonHeaders
  {
    Request(PATCH, ItemUrl(api, IdText(book)), JsonHeaders, Some(WithoutId(book)))
  }

  /** `resetBook`: PUT of the record minus its id, to that id's URL. */
  function ResetBookRequest(api: BooksApi, book: Record): (r: Request)
    ensures r.verb == PUT && TargetId(api, r.url) == Some(IdText(book))
    ensures r.body == Some(WithoutId(book)) && r.headers == JsonHeaders
  {
    Request(PUT, ItemUrl(api, IdText(book)), JsonHeaders, Some(WithoutId(book)))
  }

  /** `deleteBook`: DELETE without body or headers, to the id's URL. */
  function DeleteBookRequest(api: BooksApi, id: string): (r: Request)
    ensures r.verb == DELETE && TargetId(api, r.url) == Some(id) && r.body == None
    ensures r.headers == map[]
  {
    Request(DELETE, ItemUrl(api, id), map[], None)
  }

  /** The record a server reconstructs from an item request: the body plus the
      id taken from the URL. */
  function ReceivedRecord(api: BooksApi, req: Request): Option<Record>
  {
    match (TargetId(api, req.url), req.body)
      case (Some(id), Some(body)) => Some(body["id" := id])
      case _ => None
  }

  /** PATCH and PUT carry exactly the submitted record, split between URL and body. */
  lemma ItemRequestsCarryRecord(api: BooksApi, book: Record)
    requires "id" in book
    ensures ReceivedRecord(api, UpdateBookRequest(api, book)) == Some(book)
    ensures ReceivedRecord(api, ResetBookRequest(api, book)) == Some(book)
  {
    SplitRoundTrip(book);
  }

  // ---------------------------------------------------------------------------
  // The response rule

  /** `new Error(res.status)` turns the number into its decimal text. */
  function DecimalString(n: nat): (r: string)
    ensures |r| >= 1 && (n >= 10 <==> |r| >= 2)
    ensures forall i :: 0 <= i < |r| ==> '0' <= r[i] <= '9'
    ensures r[0] == '0' ==> n == 0
  {
    if n < 10 then [Digit(n)] else DecimalString(n / 10) + [Digit(n % 10)]
  }

  /** The decimal digit character for d. */
  function Digit(d: nat): (c: char)
    requires d < 10
    ensures c as int == '0' as int + d
  {
    ('0' as int + d) as char
  }

  /** The number that a string of decimal digits denotes, read left to right. */
  function DigitsValue(s: string): (v: int)
    requires forall i :: 0 <= i < |s| ==> '0' <= s[i] <= '9'
    ensures v >= 0
  {
    if s == [] then 0
    else 10 * DigitsValue(s[..|s| - 1]) + (s[|s| - 1] as int - '0' as int)
  }

  /** The message spells out the status code: its digits denote n. */
  lemma {:induction false} DecimalStringValue(n: nat)
    ensures DigitsValue(DecimalString(n)) == n
  {
    var s := DecimalString(n);
    if n < 10 {
      assert s[..0] == [];
    } else {
      assert s[..|s| - 1] == DecimalString(n / 10);
      DecimalStringValue(n / 10);
    }
  }

  /** Different status codes give different messages. */
  lemma {:induction false} DecimalStringInjective(a: nat, b: nat)
    requires DecimalString(a) == DecimalString(b)
    ensures a == b
  {
    var s := DecimalString(a);
    assert Digit(a % 10) == s[|s| - 1] == Digit(b % 10);
    if a >= 10 {
      assert b >= 10;
      assert DecimalString(a / 10) == s[..|s| - 1] == DecimalString(b / 10);
      DecimalStringInjective(a / 10, b / 10);
    }
  }

  /** The rule every `BooksApi` method applies to its response. */
  function Settle<T>(reply: Reply<T>): (r: Result<T, Error>)
    ensures r.Success? <==> reply.Received? && reply.ok
    ensures r.Success? ==> r.value == reply.body
    ensures reply.Received? && !reply.ok ==> r.error.message == DecimalString(reply.status)
    ensures reply.NetworkFailure? ==> r.error.message == reply.message
  {
    match reply
      case NetworkFailure(message) => Failure(Error(message))
      case Received(ok, status, body) =>
        if ok then Success(body) else Failure(Error(DecimalString(status)))
  }

  /** A non-ok response never succeeds, and its status can be read back from
      the error. */
  lemma FailedStatusRecoverable<T>(reply: Reply<T>, n: nat)
    requires reply.Received? && !reply.ok
    ensures Settle(reply).Failure?
    ensures Settle(reply).error.message == DecimalString(n) <==> reply.status == n
  {
    if DecimalString(reply.status) == DecimalString(n) {
      DecimalStringInjective(reply.status, n);
    }
  }
}
