/** The records of the pretix REST API that the handlers read, cut down to the fields they
    use. A paginated listing is the sequence of pages the handler fetches by following `next`
    until it is null; a page whose fetch did not answer `ok` is `FetchFailed`. */
module Pretix {
  import opened Wrappers

  /** One answer to a question of the order form; `answer` may be null or empty. */
  datatype Answer = Answer(questionIdentifier: string, answer: Option<string>)

  /** A position's `checkins`: a JSON array with its length, or anything that is not an array. */
  datatype Checkins = NotAList | CheckinList(count: nat)

  datatype Position = Position(checkins: Checkins, answers: seq<Answer>)

  /** An order of the orders listing; status "c" is a cancelled order. */
  datatype Order = Order(status: string, email: string, positions: seq<Position>)

  /** An order of the pending-orders listing (`?status=n`), whose e-mail may be null. */
  datatype PendingOrder = PendingOrder(code: string, status: string, email: Option<string>)

  /** The event record: slug, the English and German names, the start and the optional end. */
  datatype EventDetails = EventDetails(
    slug: string, nameEn: Option<string>, nameDe: Option<string>,
    dateFrom: string, dateTo: Option<string>)

  /** A product of the event with its English and German names and its `default_price`. */
  datatype Item = Item(nameEn: Option<string>, nameDe: Option<string>, defaultPrice: string)

  datatype Page<T> = Fetched(results: seq<T>) | FetchFailed

  /** The status pretix gives a cancelled order. */
  const Cancelled := "c"

  predicate AllFetched<T>(pages: seq<Page<T>>) {
    forall i :: 0 <= i < |pages| ==> pages[i].Fetched?
  }

  /** The results of the pages one after the other. */
  function Flatten<T>(pages: seq<Page<T>>): seq<T>
    decreases |pages|
  {
    if pages == [] then []
    else
      var last := pages[|pages| - 1];
      Flatten(pages[..|pages| - 1]) + (if last.Fetched? then last.results else [])
  }
}
