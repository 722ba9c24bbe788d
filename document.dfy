/** The document operations of the core (src/parser_aux.rs): text extraction
    over pages, exact and partial text replacement on one page, and inserting
    an image or a form XObject into a page. A `Document` holds only the state
    these operations read and change; what the rest of the library answers
    about pages and fonts is fixed when the document is built. */
module Documents {
  import opened PdfTypes
  import opened Content
  import opened TextExtraction
  import opened TextReplacement
  import opened PageEdits

  /** What `replace_partial_text` does to a page: how many occurrences it
      replaced and, when that is more than none, the page's new content. */
  datatype PartialOutcome = PartialOutcome(count: nat, store: Option<(ObjectId, seq<byte>)>)

  class Document {
    /** The pages in document order, as `page_iter` walks them; `get_pages`
        numbers them from 1 in the same order. */
    const pageIds: seq<ObjectId>
    /** `get_page_fonts` and then `get_font_encoding` on each font. */
    const fonts: ObjectId -> Result<seq<Font>>
    /** The content-stream grammar and serializer. */
    const codec: ContentCodec
    /** Each page's content bytes, as `get_page_content` reads them and
        `change_page_content` replaces them. */
    var contents: map<ObjectId, seq<byte>>
    /** The indirect objects and the largest object number in use. */
    var objects: map<ObjectId, Object>
    var maxId: u32
    /** The XObject resources registered on each page by `add_xobject`. */
    var xobjects: map<ObjectId, map<seq<byte>, ObjectId>>

    /** No object uses a number above `maxId`. */
    ghost predicate Valid()
      reads this
    {
      forall id | id in objects :: id.number <= maxId
    }

    constructor(pageIds: seq<ObjectId>, fonts: ObjectId -> Result<seq<Font>>, codec: ContentCodec,
                contents: map<ObjectId, seq<byte>>, objects: map<ObjectId, Object>, maxId: u32)
      requires forall id | id in objects :: id.number <= maxId
      ensures Valid()
      ensures this.pageIds == pageIds && this.contents == contents && this.objects == objects
      ensures this.maxId == maxId && this.xobjects == map[]
    {
      this.pageIds := pageIds;
      this.fonts := fonts;
      this.codec := codec;
      this.contents := contents;
      this.objects := objects;
      this.maxId := maxId;
      this.xobjects := map[];
    }

    /** `get_page_content`. */
    function PageContent(id: ObjectId): (r: Result<seq<byte>>)
      reads this
      ensures r.Ok? <==> id in contents
      ensures r.Ok? ==> r.value == contents[id]
    {
      if id in contents then Ok(contents[id]) else Err(ObjectNotFound(id))
    }

    /** Page number `n` as extraction looks it up in `get_pages`: numbers
        start at 1, so 0 is never a page. */
    function PageByNumber(n: u32): (r: Result<ObjectId>)
      ensures r.Ok? <==> 1 <= n <= |pageIds|
      ensures r.Ok? ==> r.value == pageIds[n - 1]
      ensures r.Err? ==> r.error == PageNumberNotFound(n)
    {
      if 1 <= n <= |pageIds| then Ok(pageIds[n - 1]) else Err(PageNumberNotFound(n))
    }

    /** Page number `n` as replacement finds it in `page_iter`, after a
        saturating decrement: 0 and 1 both name the first page. */
    function PageForReplacement(n: u32): (r: Result<ObjectId>)
      ensures r.Ok? <==> (if n == 0 then 0 else n - 1) < |pageIds|
      ensures r.Ok? ==> r.value == pageIds[if n == 0 then 0 else n - 1]
      ensures r.Err? ==> r.error == PageNumberNotFound(n)
    {
      var index := if n == 0 then 0 else n - 1;
      if index < |pageIds| then Ok(pageIds[index]) else Err(PageNumberNotFound(n))
    }

    /** Page 0 is missing for extraction but is the first page for
        replacement; every other number means the same page to both. */
    lemma PageNumbering(n: u32)
      ensures PageByNumber(n).Ok? <==> 1 <= n as int <= |pageIds|
      ensures PageByNumber(n).Ok? ==> PageByNumber(n).value == pageIds[n - 1]
      ensures PageForReplacement(n).Ok? <==> |pageIds| > 0 && n as int <= |pageIds|
      ensures PageByNumber(n).Err? ==> PageByNumber(n).error == PageNumberNotFound(n)
      ensures PageForReplacement(n).Err? ==> PageForReplacement(n).error == PageNumberNotFound(n)
      ensures n == 0 ==> PageByNumber(n).Err?
      ensures n == 0 && |pageIds| > 0 ==> PageForReplacement(n) == PageForReplacement(1) == Ok(pageIds[0])
      ensures n != 0 ==> PageByNumber(n) == PageForReplacement(n)
    {
    }

    // -------------------------------------------------------------------
    // Extraction

    /** `extract_text_chunks_from_page`. */
    function PageText(n: u32): Result<seq<Result<string>>>
      reads this
    {
      var id :- PageByNumber(n);
      PageChunks(fonts(id), PageContent(id), codec)
    }

    function PageResults(pageNumbers: seq<u32>): seq<Result<seq<Result<string>>>>
      reads this
      decreases |pageNumbers|
    {
      if pageNumbers == [] then [] else [PageText(pageNumbers[0])] + PageResults(pageNumbers[1..])
    }

    /** `extract_text_chunks`. */
    function TextChunks(pageNumbers: seq<u32>): seq<Result<string>>
      reads this
    {
      FlattenPages(PageResults(pageNumbers))
    }

    lemma {:induction false} PageResultsConcat(a: seq<u32>, b: seq<u32>)
      ensures PageResults(a + b) == PageResults(a) + PageResults(b)
      decreases |a|
    {
      if a == [] {
        assert a + b == b;
      } else {
        assert (a + b)[0] == a[0] && (a + b)[1..] == a[1..] + b;
        PageResultsConcat(a[1..], b);
      }
    }

    /** The chunks of several pages are those of each page in the order the
        pages were asked for. */
    lemma TextChunksConcat(a: seq<u32>, b: seq<u32>)
      ensures TextChunks(a + b) == TextChunks(a) + TextChunks(b)
    {
      PageResultsConcat(a, b);
      FlattenPagesConcat(PageResults(a), PageResults(b));
    }

    /** One page contributes its chunks, or its one error when it cannot be
        read. */
    lemma TextChunksOfPage(n: u32)
      ensures TextChunks([n]) == match PageText(n) case Ok(chunks) => chunks case Err(e) => [Err(e)]
    {
      assert [n][1..] == [];
      var single: seq<Result<seq<Result<string>>>> := [PageText(n)];
      assert PageResults([n]) == single;
      assert single[1..] == [];
      var own := match PageText(n) case Ok(chunks) => chunks case Err(e) => [Err(e)];
      assert FlattenPages(single) == own + FlattenPages([]);
      assert own + [] == own;
    }

    /** `extract_text_chunks_from_page`, with its loop over operations. */
    method ExtractTextChunksFromPage(n: u32) returns (r: Result<seq<Result<string>>>)
      ensures r == PageText(n)
    {
      var id := PageByNumber(n);
      if id.Err? {
        return Err(id.error);
      }
      var pageFonts := fonts(id.value);
      if pageFonts.Err? {
        return Err(pageFonts.error);
      }
      var encodings := Encodings(pageFonts.value);
      var data := PageContent(id.value);
      if data.Err? {
        return Err(data.error);
      }
      var ops := DecodeContent(codec, data.value);
      if ops.Err? {
        return Err(ops.error);
      }
      r := ScanOperations(encodings, FontErrors(pageFonts.value), ops.value);
    }

    /** `extract_text_chunks`: the pages' chunks, flattened in order. */
    method ExtractTextChunks(pageNumbers: seq<u32>) returns (chunks: seq<Result<string>>)
      ensures chunks == TextChunks(pageNumbers)
    {
      chunks := [];
      for i := 0 to |pageNumbers|
        invariant chunks == TextChunks(pageNumbers[..i])
      {
        var page := ExtractTextChunksFromPage(pageNumbers[i]);
        TextChunksConcat(pageNumbers[..i], [pageNumbers[i]]);
        TextChunksOfPage(pageNumbers[i]);
        assert pageNumbers[..i + 1] == pageNumbers[..i] + [pageNumbers[i]];
        match page {
          case Ok(pageChunks) =>
            chunks := chunks + pageChunks;
          case Err(e) =>
            chunks := chunks + [Err(e)];
        }
      }
      assert pageNumbers[..|pageNumbers|] == pageNumbers;
    }

    /** `extract_text`. */
    method ExtractText(pageNumbers: seq<u32>) returns (r: Result<string>)
      ensures r == JoinChunks(TextChunks(pageNumbers))
    {
      var chunks := ExtractTextChunks(pageNumbers);
      r := JoinText(chunks);
    }

    // -------------------------------------------------------------------
    // Replacement

    /** The page `replace_text` rewrites and its new content: any failure to
        find the page, read a font's encoding, read or parse the content,
        interpret a `Tf`, decode a string or serialize the result fails the
        whole call. */
    function ExactReplacement(n: u32, target: string, replacement: string, default: Option<string>)
      : Result<(ObjectId, seq<byte>)>
      requires target != []
      reads this
    {
      var id :- PageForReplacement(n);
      var pageFonts :- fonts(id);
      var encodings :- AllEncodings(pageFonts);
      var data :- PageContent(id);
      var ops :- DecodeContent(codec, data);
      var rewritten :- ReplaceExactOps(encodings, None, target, replacement,
                                       if default.Some? then default.value else "", ops);
      var bytes :- codec.serialize(rewritten);
      Ok((id, bytes))
    }

    /** What `replace_partial_text` does to a page: the count, and the new
        content to store only when the count is positive. */
    function PartialReplacement(n: u32, search: string, replacement: string, default: Option<string>)
      : Result<PartialOutcome>
      requires search != []
      reads this
    {
      var id :- PageForReplacement(n);
      var pageFonts :- fonts(id);
      var encodings :- AllEncodings(pageFonts);
      var data :- PageContent(id);
      var ops :- DecodeContent(codec, data);
      var rewritten :- ReplacePartialOps(encodings, None, search, replacement,
                                         if default.Some? then default.value else "?", ops);
      if rewritten.count > 0 then
        var bytes :- codec.serialize(rewritten.value);
        Ok(PartialOutcome(rewritten.count, Some((id, bytes))))
      else Ok(PartialOutcome(0, None))
    }

    /** Partial replacement stores the page exactly when it counted an
        occurrence, and when it counted none the page's operations were left
        as they were, so skipping the store loses nothing. */
    lemma PartialReplacementStores(n: u32, search: string, replacement: string, default: Option<string>)
      requires search != []
      requires PartialReplacement(n, search, replacement, default).Ok?
      ensures PartialReplacement(n, search, replacement, default).value.store.Some?
              <==> PartialReplacement(n, search, replacement, default).value.count > 0
      ensures PartialReplacement(n, search, replacement, default).value.count == 0 ==>
        var id := PageForReplacement(n).value;
        var ops := DecodeContent(codec, PageContent(id).value).value;
        ReplacePartialOps(AllEncodings(fonts(id).value).value, None, search, replacement,
                          if default.Some? then default.value else "?", ops).value.value == ops
    {
      if PartialReplacement(n, search, replacement, default).value.count == 0 {
        var id := PageForReplacement(n).value;
        var ops := DecodeContent(codec, PageContent(id).value).value;
        ReplacePartialOpsUnchanged(AllEncodings(fonts(id).value).value, None, search, replacement,
                                   if default.Some? then default.value else "?", ops);
      }
    }

    /** `replace_text`: the page's content is always stored again on
        success, and nothing changes on failure. */
    method ReplaceText(n: u32, target: string, replacement: string, default: Option<string>)
      returns (r: Result<()>)
      requires target != []
      modifies this
      ensures r.Ok? <==> old(ExactReplacement(n, target, replacement, default)).Ok?
      ensures r.Err? ==> r.error == old(ExactReplacement(n, target, replacement, default)).error
      ensures contents == (if r.Ok? then var (id, bytes) := old(ExactReplacement(n, target, replacement, default)).value;
                                         old(contents)[id := bytes]
                           else old(contents))
      ensures objects == old(objects) && maxId == old(maxId) && xobjects == old(xobjects)
    {
      var id := PageForReplacement(n);
      if id.Err? {
        return Err(id.error);
      }
      var pageFonts := fonts(id.value);
      if pageFonts.Err? {
        return Err(pageFonts.error);
      }
      var encodings := AllEncodings(pageFonts.value);
      if encodings.Err? {
        return Err(encodings.error);
      }
      var data := PageContent(id.value);
      if data.Err? {
        return Err(data.error);
      }
      var ops := DecodeContent(codec, data.value);
      if ops.Err? {
        return Err(ops.error);
      }
      var rewritten := ReplaceExactInOperations(encodings.value, target, replacement,
                                                if default.Some? then default.value else "", ops.value);
      if rewritten.Err? {
        return Err(rewritten.error);
      }
      var bytes := codec.serialize(rewritten.value);
      if bytes.Err? {
        return Err(bytes.error);
      }
      contents := contents[id.value := bytes.value];
      return Ok(());
    }

    /** `replace_partial_text`: returns the number of occurrences replaced
        and stores the page again only when that number is positive. */
    method ReplacePartialText(n: u32, search: string, replacement: string, default: Option<string>)
      returns (r: Result<nat>)
      requires search != []
      modifies this
      ensures r.Ok? <==> old(PartialReplacement(n, search, replacement, default)).Ok?
      ensures r.Ok? ==> r.value == old(PartialReplacement(n, search, replacement, default)).value.count
      ensures r.Err? ==> r.error == old(PartialReplacement(n, search, replacement, default)).error
      ensures contents == (if r.Ok? && old(PartialReplacement(n, search, replacement, default)).value.store.Some?
                           then var (id, bytes) := old(PartialReplacement(n, search, replacement, default)).value.store.value;
                                old(contents)[id := bytes]
                           else old(contents))
      ensures objects == old(objects) && maxId == old(maxId) && xobjects == old(xobjects)
    {
      var id := PageForReplacement(n);
      if id.Err? {
        return Err(id.error);
      }
      var pageFonts := fonts(id.value);
      if pageFonts.Err? {
        return Err(pageFonts.error);
      }
      var encodings := AllEncodings(pageFonts.value);
      if encodings.Err? {
        return Err(encodings.error);
      }
      var data := PageContent(id.value);
      if data.Err? {
        return Err(data.error);
      }
      var ops := DecodeContent(codec, data.value);
      if ops.Err? {
        return Err(ops.error);
      }
      var rewritten := ReplacePartialInOperations(encodings.value, search, replacement,
                                                  if default.Some? then default.value else "?", ops.value);
      if rewritten.Err? {
        return Err(rewritten.error);
      }
      if rewritten.value.count > 0 {
        var bytes := codec.serialize(rewritten.value.value);
        if bytes.Err? {
          return Err(bytes.error);
        }
        contents := contents[id.value := bytes.value];
      }
      return Ok(rewritten.value.count);
    }

    // -------------------------------------------------------------------
    // Inserting XObjects

    /** The new content of a page after `edit`, or the error reading, parsing
        or serializing it raises. */
    function EditedContent(page: ObjectId, edit: seq<Operation> -> seq<Operation>): Result<seq<byte>>
      reads this
    {
      var data :- PageContent(page);
      var ops :- DecodeContent(codec, data);
      codec.serialize(edit(ops))
    }

    /** `add_xobject`: register `name` for `id` among the page's XObjects. */
    static function WithXObject(xobjects: map<ObjectId, map<seq<byte>, ObjectId>>, page: ObjectId,
                                name: seq<byte>, id: ObjectId): (r: map<ObjectId, map<seq<byte>, ObjectId>>)
      ensures page in r && name in r[page] && r[page][name] == id
      ensures forall p | p in xobjects && p != page :: p in r && r[p] == xobjects[p]
      ensures forall p | p in r && p != page :: p in xobjects
      ensures forall other | page in xobjects && other in xobjects[page] && other != name ::
                other in r[page] && r[page][other] == xobjects[page][other]
    {
      var resources := if page in xobjects then xobjects[page] else map[];
      xobjects[page := resources[name := id]]
    }

    /** `add_object`: the next object number, with generation 0. */
    method AddObject(o: Object) returns (id: ObjectId)
      requires Valid() && maxId < U32_MAX
      modifies this
      ensures Valid()
      ensures id == ObjectId(old(maxId) + 1, 0) && id !in old(objects)
      ensures objects == old(objects)[id := o] && maxId == old(maxId) + 1
      ensures contents == old(contents) && xobjects == old(xobjects)
    {
      maxId := maxId + 1;
      id := ObjectId(maxId, 0);
      objects := objects[id := o];
    }

    /** `insert_image`: the image becomes a new object registered on the page
        as `X<n>` before the page is read, so those two changes stay even
        when reading, parsing or serializing the content fails; otherwise the
        page is painted with the image last. */
    method InsertImage(page: ObjectId, image: StreamObject, width: real, height: real, x: real, y: real)
      returns (r: Result<()>)
      requires Valid() && maxId < U32_MAX
      modifies this
      ensures Valid()
      ensures var id := ObjectId(old(maxId) + 1, 0);
        && id !in old(objects) && objects == old(objects)[id := Stream(image)] && maxId == id.number
        && xobjects == WithXObject(old(xobjects), page, XObjectName(id.number), id)
        && var edited := old(EditedContent(page, ops => WithImage(ops, XObjectName(id.number), width, height, x, y)));
           (r.Ok? <==> edited.Ok?)
           && (r.Err? ==> r.error == edited.error)
           && contents == (if edited.Ok? then old(contents)[page := edited.value] else old(contents))
    {
      var id := AddObject(Stream(image));
      var name := XObjectName(id.number);
      xobjects := WithXObject(xobjects, page, name, id);
      var data := PageContent(page);
      if data.Err? {
        return Err(data.error);
      }
      var decoded := DecodeContent(codec, data.value);
      if decoded.Err? {
        return Err(decoded.error);
      }
      var ops := decoded.value;
      ops := ops + [SAVE];
      ops := ops + [Placement(width, height, x, y)];
      ops := ops + [Paint(name)];
      ops := ops + [RESTORE];
      assert ops == WithImage(decoded.value, name, width, height, x, y);
      var bytes := codec.serialize(ops);
      if bytes.Err? {
        return Err(bytes.error);
      }
      contents := contents[page := bytes.value];
      return Ok(());
    }

    /** `insert_form_object`: the form becomes a new object at once, but is
        registered on the page as `X<n>` only once the wrapped content has
        been serialized; the page is then stored. */
    method InsertFormObject(page: ObjectId, form: StreamObject) returns (r: Result<()>)
      requires Valid() && maxId < U32_MAX
      modifies this
      ensures Valid()
      ensures var id := ObjectId(old(maxId) + 1, 0);
        && id !in old(objects) && objects == old(objects)[id := Stream(form)] && maxId == id.number
        && var edited := old(EditedContent(page, ops => WithFormObject(ops, XObjectName(id.number))));
           (r.Ok? <==> edited.Ok?)
           && (r.Err? ==> r.error == edited.error)
           && xobjects == (if edited.Ok? then WithXObject(old(xobjects), page, XObjectName(id.number), id)
                           else old(xobjects))
           && contents == (if edited.Ok? then old(contents)[page := edited.value] else old(contents))
    {
      var id := AddObject(Stream(form));
      var name := XObjectName(id.number);
      var data := PageContent(page);
      if data.Err? {
        return Err(data.error);
      }
      var decoded := DecodeContent(codec, data.value);
      if decoded.Err? {
        return Err(decoded.error);
      }
      var ops := decoded.value;
      ops := [SAVE] + ops;
      ops := ops + [RESTORE];
      ops := ops + [Paint(name)];
      assert ops == WithFormObject(decoded.value, name);
      var bytes := codec.serialize(ops);
      if bytes.Err? {
        return Err(bytes.error);
      }
      xobjects := WithXObject(xobjects, page, name, id);
      contents := contents[page := bytes.value];
      return Ok(());
    }
  }
}
