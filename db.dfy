/**
 * The storage collaborator: a `pg` pool whose `query(text, params)` sends SQL
 * text with positional parameters ($1, $2, ...) to the database. The pool is
 * modelled as an object that records every call it receives (the log that
 * the test suite inspects as `mockPool.query.mock.calls`) and lets an
 * uninterpreted function stand for the database's answer.
 */
module Db {
  import opened Js

  /** One column value of a returned row. */
  datatype Cell = Text(s: string) | Number(n: int) | Null

  /** A returned row: column name to value. */
  type Row = map<string, Cell>

  /** One recorded call: the SQL text and the vector of bound parameters. */
  datatype Call = Call(text: string, params: seq<string>)

  /** What the database does with a call: resolve with the result rows, or reject. */
  type Database = Call -> Settled<seq<Row>>

  class Pool {
    /** The database behind the pool; outside the model's view. */
    const respond: Database
    /** Every call made through this pool, oldest first. */
    var calls: seq<Call>

    constructor (respond: Database)
      ensures this.respond == respond
      ensures calls == []
    {
      this.respond := respond;
      calls := [];
    }

    /** `await pool.query(text, params)`: logs the call and returns the database's answer to it. */
    method Query(text: string, params: seq<string>) returns (result: Settled<seq<Row>>)
      modifies this
      ensures calls == old(calls) + [Call(text, params)]
      ensures result == respond(Call(text, params))
    {
      calls := calls + [Call(text, params)];
      result := respond(Call(text, params));
    }
  }
}
