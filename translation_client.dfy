/**
 * The return expression of `google_translate`: the translated text is the
 * concatenation of the first element of every segment in the first element of
 * the decoded response, skipping falsy first elements; any failure gives the
 * input text back.
 *
 * The decoded JSON is modelled only as far as that expression looks at it.
 * A segment is either an array of items or a value that cannot be indexed
 * (number, boolean, null, object: `part[0]` raises). A string segment indexes
 * like the array of its one-character strings and is written as such.
 */
module TranslationClient {
  import opened Wrappers

  /** A JSON value in first position of a segment. */
  datatype Item =
    | Str(s: string)
    | Null
      /** a number, boolean, array or object; `truthy` is its Python truth value */
    | Other(truthy: bool)

  datatype Segment = Arr(items: seq<Item>) | Scalar

  /**
   * What the request yields: the transport failed, or a body arrived whose
   * decoding gives `data[0]` as a list of segments (`None` when `json.loads`
   * fails or `data[0]` cannot be taken or iterated).
   */
  datatype Reply = TransportFailure | Received(body: Option<seq<Segment>>)

  /** Python truth value of an item (the `if part[0]` filter). */
  predicate Truthy(x: Item) {
    match x
    case Str(s) => s != ""
    case Null => false
    case Other(t) => t
  }

  /** `[part[0] for part in segs if part[0]]`; `None` when some `part[0]` raises. */
  function FirstItems(segs: seq<Segment>): Option<seq<Item>>
    decreases |segs|
  {
    if |segs| == 0 then Some([])
    else match segs[0]
      case Scalar => None
      case Arr(items) =>
        if |items| == 0 then None
        else match FirstItems(segs[1..])
          case None => None
          case Some(rest) => Some(if Truthy(items[0]) then [items[0]] + rest else rest)
  }

  /** `''.join(items)`; `None` when some item is not a string (TypeError). */
  function JoinStrings(items: seq<Item>): Option<string>
    decreases |items|
  {
    if |items| == 0 then Some("")
    else match items[0]
      case Str(s) =>
        (match JoinStrings(items[1..])
         case None => None
         case Some(rest) => Some(s + rest))
      case _ => None
  }

  /** The whole comprehension and join; `None` when it raises. */
  function JoinFirsts(segs: seq<Segment>): Option<string> {
    match FirstItems(segs)
    case None => None
    case Some(items) => JoinStrings(items)
  }

  /** A segment whose `part[0]` exists and is either a string or falsy. */
  predicate Usable(seg: Segment) {
    seg.Arr? && |seg.items| > 0 && (seg.items[0].Str? || !Truthy(seg.items[0]))
  }

  /** The text a usable segment contributes: its first string, or nothing. */
  function Fragment(seg: Segment): string
    requires Usable(seg)
  {
    if seg.items[0].Str? then seg.items[0].s else ""
  }

  /** Reference meaning: the fragments of all segments, in order, with no filter. */
  function Fragments(segs: seq<Segment>): string
    requires forall i :: 0 <= i < |segs| ==> Usable(segs[i])
    decreases |segs|
  {
    if |segs| == 0 then "" else Fragment(segs[0]) + Fragments(segs[1..])
  }

  /**
   * The join succeeds exactly when every segment is usable, and then yields the
   * in-order concatenation of the fragments: skipping falsy items never
   * changes the text.
   */
  lemma {:induction false} JoinFirstsMeaning(segs: seq<Segment>)
    ensures JoinFirsts(segs).Some? <==> forall i :: 0 <= i < |segs| ==> Usable(segs[i])
    ensures JoinFirsts(segs).Some? ==> JoinFirsts(segs).value == Fragments(segs)
    decreases |segs|
  {
    if |segs| > 0 {
      JoinFirstsMeaning(segs[1..]);
      var seg := segs[0];
      if !Usable(seg) {
        if seg.Arr? && |seg.items| > 0 {
          match FirstItems(segs[1..])
          case None =>
          case Some(rest) =>
            assert FirstItems(segs) == Some([seg.items[0]] + rest);
        }
      } else {
        forall i | 0 <= i < |segs| - 1 ensures Usable(segs[1..][i]) <==> Usable(segs[i + 1]) {
          assert segs[1..][i] == segs[i + 1];
        }
        if forall i :: 0 <= i < |segs| ==> Usable(segs[i]) {
          assert forall i :: 0 <= i < |segs[1..]| ==> Usable(segs[1..][i]);
        }
      }
    }
  }

  /** `google_translate` in `bot.py`: one handler around the request and the join. */
  function ExtractFlat(reply: Reply, text: string): (r: string)
    ensures reply.TransportFailure? ==> r == text
    ensures reply.Received? && reply.body.None? ==> r == text
    ensures reply.Received? && reply.body.Some? ==>
              r == if forall i :: 0 <= i < |reply.body.value| ==> Usable(reply.body.value[i])
                   then Fragments(reply.body.value) else text
  {
    match reply
    case Received(Some(segs)) =>
      JoinFirstsMeaning(segs);
      JoinFirsts(segs).GetOr(text)
    case _ => text
  }

  /**
   * `google_translate` in `bot/translate.py`: an outer handler for the request
   * and an inner one for decoding and joining.
   */
  function ExtractNested(reply: Reply, text: string): string {
    match reply
    case TransportFailure => text
    case Received(body) =>
      match body
      case None => text
      case Some(segs) =>
        match JoinFirsts(segs)
        case None => text
        case Some(s) => s
  }

  /** The two copies of the client return the same text for every reply. */
  lemma CopiesAgree(reply: Reply, text: string)
    ensures ExtractFlat(reply, text) == ExtractNested(reply, text)
  {
  }

  /** The translation client: query the service through `fetch`, then extract. */
  function GoogleTranslate(text: string, target: string, fetch: (string, string) -> Reply): (r: string)
    ensures fetch(text, target).TransportFailure? ==> r == text
  {
    ExtractFlat(fetch(text, target), text)
  }

  /** A service that always fails makes the client the identity. */
  lemma OfflineClientIsIdentity(fetch: (string, string) -> Reply, target: string)
    requires forall t :: fetch(t, target).TransportFailure?
    ensures forall t :: GoogleTranslate(t, target, fetch) == t
  {
  }
}
