/** Shared vocabulary of the sync engine: configuration scalars as the JSON
 *  configuration delivers them, remote page records, the calls issued to the
 *  wiki, errors, and the wiki gateway itself. The gateway is an object that
 *  answers listings from a fixed snapshot of the parent's children, fails the
 *  calls it is told to reject, and records every call and every console line
 *  in one trace, so that the order of logging and remote effects can be stated. */
module Remote {

  datatype Option<T> = None | Some(value: T)

  /** A scalar of the JSON configuration. `parent_page_id` may be written
   *  either as a string or as a number, and Python treats the two apart. */
  datatype JsonValue = JStr(s: string) | JInt(n: int)

  function DigitChar(d: nat): char
    requires d < 10
  {
    "0123456789"[d]
  }

  function NatToDecimal(n: nat): string
    decreases n
  {
    if n < 10 then [DigitChar(n)] else NatToDecimal(n / 10) + [DigitChar(n % 10)]
  }

  /** Python's `str(v)` for the two kinds of scalar. */
  function PyStr(v: JsonValue): string
  {
    match v
    case JStr(s) => s
    case JInt(n) => if n < 0 then "-" + NatToDecimal(-n) else NatToDecimal(n)
  }

  /** A child page as the listing call returns it. */
  datatype RemotePage = RemotePage(id: string, title: string)

  /** One record of the page-list dump: the listing entry tagged with the
   *  parent id it was requested for. */
  datatype Entry = Entry(parentId: JsonValue, id: string, title: string)

  /** The calls the engine issues to the wiki client. */
  datatype Call =
    | UpdatePage(pageId: JsonValue, title: string, body: string)
    | UpdateOrCreate(parentId: JsonValue, title: string, body: string)
    | GetPageChildByType(pageId: JsonValue, start: nat, limit: nat)
    | RemovePage(id: string, recursive: bool)

  /** A call that writes page content (as opposed to listing or deleting). */
  predicate IsPublish(c: Call)
  {
    c.UpdatePage? || c.UpdateOrCreate?
  }

  datatype Event = Called(call: Call) | Printed(line: string)

  datatype Error =
    | IOError(path: string)
    | TemplateError(document: string)
    | RemoteError(failed: Call)
    | PoolError(processes: int)

  datatype Outcome = Pass | Fail(error: Error)

  datatype Result<T> = Ok(value: T) | Err(error: Error)

  function Min(a: int, b: int): int
  {
    if a <= b then a else b
  }

  /** What the listing call returns for an offset and a page size: the slice
   *  of the parent's children starting at `start`, empty past the end. */
  function Page(listing: seq<RemotePage>, start: nat, limit: nat): seq<RemotePage>
  {
    if start >= |listing| then [] else listing[start..Min(start + limit, |listing|)]
  }

  class Gateway {
    /** Every call issued and every decision line printed, in order. */
    var trace: seq<Event>
    /** The children of the parent page, as the server would list them. */
    const listing: seq<RemotePage>
    /** The calls that raise instead of succeeding. */
    const rejects: set<Call>

    constructor (listing: seq<RemotePage>, rejects: set<Call>)
      ensures this.listing == listing && this.rejects == rejects
      ensures trace == []
    {
      this.listing := listing;
      this.rejects := rejects;
      trace := [];
    }

    /** A line written to the console. */
    method Print(line: string)
      modifies this
      ensures trace == old(trace) + [Printed(line)]
    {
      trace := trace + [Printed(line)];
    }

    method Send(c: Call) returns (ok: bool)
      modifies this
      ensures ok == (c !in rejects)
      ensures trace == old(trace) + [Called(c)]
    {
      trace := trace + [Called(c)];
      ok := c !in rejects;
    }

    method UpdatePage(pageId: JsonValue, title: string, body: string) returns (ok: bool)
      modifies this
      ensures ok == (Call.UpdatePage(pageId, title, body) !in rejects)
      ensures trace == old(trace) + [Called(Call.UpdatePage(pageId, title, body))]
    {
      ok := Send(Call.UpdatePage(pageId, title, body));
    }

    method UpdateOrCreate(parentId: JsonValue, title: string, body: string) returns (ok: bool)
      modifies this
      ensures ok == (Call.UpdateOrCreate(parentId, title, body) !in rejects)
      ensures trace == old(trace) + [Called(Call.UpdateOrCreate(parentId, title, body))]
    {
      ok := Send(Call.UpdateOrCreate(parentId, title, body));
    }

    method RemovePage(id: string, recursive: bool) returns (ok: bool)
      modifies this
      ensures ok == (Call.RemovePage(id, recursive) !in rejects)
      ensures trace == old(trace) + [Called(Call.RemovePage(id, recursive))]
    {
      ok := Send(Call.RemovePage(id, recursive));
    }

    method GetPageChildByType(pageId: JsonValue, start: nat, limit: nat) returns (r: Result<seq<RemotePage>>)
      modifies this
      ensures var c := Call.GetPageChildByType(pageId, start, limit);
              r == (if c in rejects then Err(RemoteError(c)) else Ok(Page(listing, start, limit)))
      ensures trace == old(trace) + [Called(Call.GetPageChildByType(pageId, start, limit))]
    {
      var c := Call.GetPageChildByType(pageId, start, limit);
      var ok := Send(c);
      if ok {
        r := Ok(Page(listing, start, limit));
      } else {
        r := Err(RemoteError(c));
      }
    }
  }
}
