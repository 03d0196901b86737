/**
 * The view controller of src/main.js: the page's list and four forms, the
 * handlers bound to them, the initial load and `onError`.
 *
 * Each submit handler runs in two parts. Its synchronous part serialises the
 * form, issues the request and resets the form (`Submit...`); the callback the
 * request's promise runs later is `Complete...`, given what the request
 * yielded. When requests overlap, their completions may run in any order.
 */
module View {
  import opened Wrappers
  import opened Render
  import opened Api
  import opened Forms
  import opened DomList

  /** The three branches of `onError`. */
  datatype Branch = NotFound | Unauthorized | UnknownError

  /** `onError`: the branch taken for an error, by its message. */
  function ErrorBranch(e: Error): (b: Branch)
    ensures b == NotFound <==> e.message == "404"
    ensures b == Unauthorized <==> e.message == "401"
  {
    if e.message == "404" then NotFound
    else if e.message == "401" then Unauthorized
    else UnknownError
  }

  /** For a response that is not ok, the branch is decided by its status code
      alone: 404 and 401 have their own branches, every other code the default. */
  lemma ErrorBranchOfStatus<T>(reply: Reply<T>)
    requires reply.Received? && !reply.ok
    ensures ErrorBranch(Settle(reply).error) == NotFound <==> reply.status == 404
    ensures ErrorBranch(Settle(reply).error) == Unauthorized <==> reply.status == 401
    ensures ErrorBranch(Settle(reply).error) == UnknownError <==> reply.status != 404 && reply.status != 401
  {
    assert DecimalString(404) == "404" by {
      assert DecimalString(40) == "40";
    }
    assert DecimalString(401) == "401" by {
      assert DecimalString(40) == "40";
    }
    FailedStatusRecoverable(reply, 404);
    FailedStatusRecoverable(reply, 401);
  }

  /** Where a click on the list lands: on the list element itself, or inside
      the list item at the given position. */
  datatype ClickTarget = ListItself | InItem(index: nat)

  /** How a request's callback ends: it ran to the end, the request's promise
      was rejected with an error, or no list item had the id (the callback
      throws on `null` before it changes the list). */
  datatype Completion = Done | Rejected(error: Error) | MissingNode(id: string)

  class Page {
    const api: BooksApi
    /** The list items, in document order. */
    var items: seq<Book>
    var createForm: seq<Control>
    var resetForm: seq<Control>
    var updateForm: seq<Control>
    var deleteForm: seq<Control>

    /** The host page gives the reset, update and delete forms one `id` control each. */
    ghost predicate Valid()
      reads this
    {
      HasIdControl(resetForm) && HasIdControl(updateForm) && HasIdControl(deleteForm)
    }

    constructor (api: BooksApi, createForm: seq<Control>, resetForm: seq<Control>,
                 updateForm: seq<Control>, deleteForm: seq<Control>)
      requires HasIdControl(resetForm) && HasIdControl(updateForm) && HasIdControl(deleteForm)
      ensures Valid()
      ensures this.api == api && items == []
      ensures this.createForm == createForm && this.resetForm == resetForm
      ensures this.updateForm == updateForm && this.deleteForm == deleteForm
    {
      this.api := api;
      items := [];
      this.createForm := createForm;
      this.resetForm := resetForm;
      this.updateForm := updateForm;
      this.deleteForm := deleteForm;
    }

    /** `renderBooks`: the list's markup is replaced by the rendered books, whose
        items then stand in reverse fetch order. */
    method RenderBooks(books: seq<Book>)
      modifies this`items
      ensures items == Reverse(books)
      ensures ListMarkup(items) == BooksTemplates(books)
    {
      BooksTemplatesIsReversedList(books);
      items := Reverse(books);
    }

    /** The initial load, `getBooks().then(renderBooks).catch(onError)`: on
        success the list is rendered, otherwise the error's branch is taken. */
    method Load(reply: Reply<seq<Book>>) returns (branch: Option<Branch>)
      modifies this`items
      ensures Settle(reply).Success? ==> items == Reverse(Settle(reply).value) && branch == None
      ensures Settle(reply).Failure? ==> items == old(items) && branch == Some(ErrorBranch(Settle(reply).error))
    {
      match Settle(reply)
      case Success(books) =>
        RenderBooks(books);
        branch := None;
      case Failure(e) =>
        branch := Some(ErrorBranch(e));
    }

    /** `onBookClick`: a click inside an item copies its id into the id controls
        of the reset, update and delete forms; a click on the list itself does nothing. */
    method Click(target: ClickTarget)
      requires Valid()
      requires target.InItem? ==> target.index < |items|
      modifies this`resetForm, this`updateForm, this`deleteForm
      ensures Valid()
      ensures target.ListItself? ==> resetForm == old(resetForm) && updateForm == old(updateForm) && deleteForm == old(deleteForm)
      ensures target.InItem? ==>
                && resetForm == SetId(old(resetForm), items[target.index].id)
                && updateForm == SetId(old(updateForm), items[target.index].id)
                && deleteForm == SetId(old(deleteForm), items[target.index].id)
    {
      if target.ListItself? {
        return;
      }
      var id := items[target.index].id;
      resetForm := SetId(resetForm, id);
      updateForm := SetId(updateForm, id);
      deleteForm := SetId(deleteForm, id);
      SetIdKeepsIdControl(old(resetForm), id);
      SetIdKeepsIdControl(old(updateForm), id);
      SetIdKeepsIdControl(old(deleteForm), id);
    }

    /** The synchronous part of `onBookCreate`: every entry of the create form
        goes into the POST body, then the form is reset. */
    method SubmitCreate() returns (req: Request)
      modifies this`createForm
      ensures req == CreateBookRequest(api, Collect(FormData(old(createForm))))
      ensures createForm == ResetForm(old(createForm))
    {
      var book := Serialize(FormData(createForm));
      req := CreateBookRequest(api, book);
      createForm := ResetForm(createForm);
    }

    /** The callback of `onBookCreate`: the created book's item goes first. */
    method CompleteCreate(reply: Reply<Book>) returns (c: Completion)
      modifies this`items
      ensures Settle(reply).Success? ==> c == Done && items == [Settle(reply).value] + old(items)
      ensures Settle(reply).Failure? ==> c == Rejected(Settle(reply).error) && items == old(items)
    {
      match Settle(reply)
      case Success(b) =>
        items := [b] + items;
        c := Done;
      case Failure(e) =>
        c := Rejected(e);
    }

    /** The synchronous part of `onBookReset`: every entry of the reset form is
        sent with PUT; `key` is the id the callback looks the item up by. */
    method SubmitReset() returns (req: Request, key: string)
      modifies this`resetForm
      ensures req == ResetBookRequest(api, Collect(FormData(old(resetForm))))
      ensures key == IdText(Collect(FormData(old(resetForm))))
      ensures resetForm == ResetForm(old(resetForm))
    {
      var book := Serialize(FormData(resetForm));
      req := ResetBookRequest(api, book);
      key := IdText(book);
      resetForm := ResetForm(resetForm);
    }

    /** The synchronous part of `onBookUpdate`: only the non-empty entries of the
        update form are sent with PATCH. */
    method SubmitUpdate() returns (req: Request, key: string)
      modifies this`updateForm
      ensures req == UpdateBookRequest(api, CollectNonEmpty(FormData(old(updateForm))))
      ensures key == IdText(CollectNonEmpty(FormData(old(updateForm))))
      ensures updateForm == ResetForm(old(updateForm))
    {
      var book := SerializeNonEmpty(FormData(updateForm));
      req := UpdateBookRequest(api, book);
      key := IdText(book);
      updateForm := ResetForm(updateForm);
    }

    /** The callback of `onBookReset` and `onBookUpdate`: the new item is
        inserted after the first item with the id, which is then removed. */
    method CompleteReplace(key: string, reply: Reply<Book>) returns (c: Completion)
      modifies this`items
      ensures Settle(reply).Failure? ==> c == Rejected(Settle(reply).error) && items == old(items)
      ensures Settle(reply).Success? && !HasItem(old(items), key) ==> c == MissingNode(key) && items == old(items)
      ensures Settle(reply).Success? && HasItem(old(items), key) ==>
                c == Done && items == ReplaceFirst(old(items), key, Settle(reply).value)
    {
      match Settle(reply)
      case Failure(e) =>
        c := Rejected(e);
      case Success(b) =>
        var i := FindNode(items, key);
        if i == |items| {
          c := MissingNode(key);
          return;
        }
        ghost var before := items;
        items := items[..i + 1] + [b] + items[i + 1..];
        items := items[..i] + items[i + 1..];
        assert items == before[i := b];
        c := Done;
    }

    /** The synchronous part of `onBookDelete`: DELETE for the id control's value. */
    method SubmitDelete() returns (req: Request, id: string)
      requires Valid()
      modifies this`deleteForm
      ensures Valid()
      ensures Some(id) == IdValue(old(deleteForm))
      ensures req == DeleteBookRequest(api, id)
      ensures deleteForm == ResetForm(old(deleteForm))
    {
      var i :| 0 <= i < |deleteForm| && deleteForm[i].name == "id";
      id := IdValue(deleteForm).value;
      req := DeleteBookRequest(api, id);
      deleteForm := ResetForm(deleteForm);
      assert deleteForm[i].name == "id";
    }

    /** The callback of `onBookDelete`: the first item with the id is removed. */
    method CompleteDelete<T>(id: string, reply: Reply<T>) returns (c: Completion)
      modifies this`items
      ensures Settle(reply).Failure? ==> c == Rejected(Settle(reply).error) && items == old(items)
      ensures Settle(reply).Success? && !HasItem(old(items), id) ==> c == MissingNode(id) && items == old(items)
      ensures Settle(reply).Success? && HasItem(old(items), id) ==>
                c == Done && items == RemoveFirst(old(items), id)
    {
      match Settle(reply)
      case Failure(e) =>
        c := Rejected(e);
      case Success(_) =>
        var i := FindNode(items, id);
        if i == |items| {
          c := MissingNode(id);
          return;
        }
        items := items[..i] + items[i + 1..];
        c := Done;
    }
  }

  /** Setting the id control leaves the form with its one id control. */
  lemma SetIdKeepsIdControl(form: seq<Control>, id: string)
    requires HasIdControl(form)
    ensures HasIdControl(SetId(form, id))
  {
    var i :| 0 <= i < |form| && form[i].name == "id"
             && forall j :: 0 <= j < |form| && j != i ==> form[j].name != "id";
    assert SetId(form, id)[i].name == "id";
  }

  /** After a click on an item, the reset and delete forms address that item's
      URL; the update form does too unless the id is empty, in which case the
      id is skipped and the URL ends in "undefined". */
  lemma ClickedIdReachesRequests(api: BooksApi, resetForm: seq<Control>, updateForm: seq<Control>,
                                 deleteForm: seq<Control>, id: string)
    requires HasIdControl(resetForm) && HasIdControl(updateForm) && HasIdControl(deleteForm)
    ensures TargetId(api, ResetBookRequest(api, Collect(FormData(SetId(resetForm, id)))).url) == Some(id)
    ensures TargetId(api, UpdateBookRequest(api, CollectNonEmpty(FormData(SetId(updateForm, id)))).url)
            == Some(if id != "" then id else "undefined")
    ensures IdValue(SetId(deleteForm, id)) == Some(id)
    ensures TargetId(api, DeleteBookRequest(api, id).url) == Some(id)
  {
    SubmittedIdAfterSetId(resetForm, id);
    UpdateIdAfterSetId(updateForm, id);
    IdValueAfterSetId(deleteForm, id);
  }
}
