/**
 The browser state the view counter and the engagement tracker work on: the
 durable store (localStorage), the session store (sessionStorage) and the
 `view-count` element. Both stores are maps from key to an already-decoded
 entry; the element is a log of the values written to its text, in order.
 */
module Storage {

  datatype Option<+T> = None | Some(value: T)

  /** What `visitData` holds: the count, an opaque ISO-8601 timestamp and
      the first characters of the user agent. */
  datatype VisitData = VisitData(count: int, lastVisit: string, userAgent: string)

  /** What `lastVisitMetrics` holds, written on every page exit. */
  datatype VisitMetrics = VisitMetrics(timeSpent: int, maxScroll: int, timestamp: string, pageUrl: string)

  /** A stored string, already classified.
      - Number(n): the decimal numeral of the integer n (what `setItem` makes of a number);
      - Text(s): any other text, for instance the session flag "true" or a corrupt
        count "abc"; under a record key it stands for text that JSON.parse rejects,
        except the empty text;
      - VisitRecord / MetricsRecord: the JSON text of a record. */
  datatype Entry =
    | Number(n: int)
    | Text(s: string)
    | VisitRecord(visit: VisitData)
    | MetricsRecord(metrics: VisitMetrics)

  type Store = map<string, Entry>

  const PageViewsKey: string := "pageViews"
  const VisitDataKey: string := "visitData"
  const LastMetricsKey: string := "lastVisitMetrics"
  const SessionViewedKey: string := "sessionViewed"

  /** The part of the page state the counter logic reads and writes. */
  datatype PageState = PageState(local: Store, session: Store, shown: seq<int>)

  /** A page: the two stores, and the counter element when the page has one. */
  class Page {
    var local: Store
    var session: Store
    /** Every value written to the text of the `view-count` element, oldest first. */
    var shown: seq<int>
    /** Whether `document.getElementById('view-count')` finds the element. */
    const hasViewCount: bool

    function State(): PageState
      reads this
    {
      PageState(local, session, shown)
    }

    constructor (local: Store, session: Store, hasViewCount: bool)
      ensures State() == PageState(local, session, [])
      ensures this.hasViewCount == hasViewCount
    {
      this.local := local;
      this.session := session;
      this.shown := [];
      this.hasViewCount := hasViewCount;
    }

    /** `localStorage.setItem('lastVisitMetrics', JSON.stringify(m))`; when the
        store throws, the handler swallows the error and nothing is written. */
    method SaveVisitMetrics(m: VisitMetrics, writeOk: bool)
      modifies this`local
      ensures local == if writeOk then old(local)[LastMetricsKey := MetricsRecord(m)] else old(local)
    {
      if writeOk {
        local := local[LastMetricsKey := MetricsRecord(m)];
      }
    }
  }
}
