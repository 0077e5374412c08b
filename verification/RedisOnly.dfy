/** What Redis does with one key: the commands the object cache issues, and the reference they make. */
module RedisOnly {

  /** false, null, an integer, or any other value. */
  datatype Value = False | Null | Int(n: int) | Other(id: nat)

  type Keyspace = map<string, Value>

  /** A command returns, or throws with or without having taken effect. */
  datatype Outcome = Completes | Throws(effect: bool)

  /**
   * What the network does to one operation: the first attempt, whether a reconnect succeeds
   * and the attempt after it (reads only), and whether the server answers a SET with an error.
   */
  datatype Net = Net(first: Outcome, reconnects: bool, second: Outcome, refused: bool)

  /** A read is answered at once, or after the one reconnect of the request. */
  predicate Answered(net: Net, reconnectAttempted: bool) {
    net.first.Completes? || (!reconnectAttempted && net.reconnects && net.second.Completes?)
  }

  function Get(m: Keyspace, k: string): Value {
    if k in m then m[k] else False
  }

  /** One element of MGET as get_multiple takes it: isset() drops a stored null. */
  function MGet(m: Keyspace, k: string): Value {
    if Get(m, k) == Null then False else Get(m, k)
  }

  function Add(m: Keyspace, k: string, v: Value, net: Net): (Keyspace, bool) {
    match net.first
    case Throws(effect) => (if effect && k !in m then m[k := v] else m, false)
    case Completes => if k in m || net.refused then (m, false) else (m[k := v], true)
  }

  function Replace(m: Keyspace, k: string, v: Value, net: Net): (Keyspace, bool) {
    match net.first
    case Throws(effect) => (if effect && k in m then m[k := v] else m, false)
    case Completes => if k !in m || net.refused then (m, false) else (m[k := v], true)
  }

  function Set(m: Keyspace, k: string, v: Value, net: Net): (Keyspace, bool) {
    match net.first
    case Throws(effect) => (if effect then m[k := v] else m, false)
    case Completes => if net.refused then (m, false) else (m[k := v], true)
  }

  function Delete(m: Keyspace, k: string, net: Net): (Keyspace, bool) {
    match net.first
    case Throws(effect) => (if effect then m - {k} else m, false)
    case Completes => (m - {k}, k in m)
  }

  function Stepped(intOf: Value -> int, v: Value, offset: int): Value {
    Int(if intOf(v) + offset > 0 then intOf(v) + offset else 0)
  }

  /** incr, and decr with the offset negated: GET, then SET, whose answer is not looked at. */
  function Incr(m: Keyspace, k: string, intOf: Value -> int, offset: int, net: Net): (Keyspace, Value) {
    if Get(m, k) == False then (m, False)
    else
      var next := Stepped(intOf, m[k], offset);
      match net.first
      case Throws(effect) => (if effect then m[k := next] else m, False)
      case Completes => (if net.refused then m else m[k := next], next)
  }
}
