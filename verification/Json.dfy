/** JSON values as the authentication code inspects them. `Integer` is a number that fits an i64. */
module Json {
  import FormData
  import opened Prelude

  datatype Json =
    | Null | Bool(b: bool) | Integer(n: int) | OtherNumber | Text(s: string)
    | Array(items: Items) | Object(members: Members)

  datatype Items = NoItems | Item(head: Json, tail: Items)
  datatype Members = NoMembers | Member(name: string, value: Json, rest: Members)

  function Depth(v: Json, depth: nat): nat {
    match v
    case Array(items) => if items.NoItems? then depth + 1 else DepthItems(items, depth + 1)
    case Object(members) => if members.NoMembers? then depth + 1 else DepthMembers(members, depth + 1)
    case _ => depth
  }

  function DepthItems(items: Items, depth: nat): nat {
    match items
    case NoItems => 0
    case Item(head, tail) => Max(Depth(head, depth), DepthItems(tail, depth))
  }

  function DepthMembers(members: Members, depth: nat): nat {
    match members
    case NoMembers => 0
    case Member(_, value, rest) => Max(Depth(value, depth), DepthMembers(rest, depth))
  }

  function Get(members: Members, name: string): Option<Json> {
    match members
    case NoMembers => None
    case Member(n, value, rest) => if n == name then Some(value) else Get(rest, name)
  }

  function Count(members: Members): nat {
    if members.NoMembers? then 0 else 1 + Count(members.rest)
  }

  /** optional_string: an absent or null member, or a text within the limit and without control characters. */
  function ReadOptional(members: Members, name: string, max: nat): Option<Option<string>> {
    match Get(members, name)
    case None => Some(None)
    case Some(Null) => Some(None)
    case Some(Text(s)) => if |s| <= max && !FormData.HasControl(s) then Some(Some(s)) else None
    case _ => None
  }

  /** At least k arrays and objects inside one another. */
  predicate Nests(v: Json, k: nat)
    decreases v
  {
    || k == 0
    || (v.Array? && (k == 1 || ItemNests(v.items, k - 1)))
    || (v.Object? && (k == 1 || MemberNests(v.members, k - 1)))
  }

  predicate ItemNests(items: Items, k: nat)
    decreases items
  {
    items.Item? && (Nests(items.head, k) || ItemNests(items.tail, k))
  }

  predicate MemberNests(members: Members, k: nat)
    decreases members
  {
    members.Member? && (Nests(members.value, k) || MemberNests(members.rest, k))
  }

  /** The depth is the longest nesting: it passes a limit exactly when that many containers nest. */
  lemma {:induction false} DepthIsNesting(v: Json, depth: nat, k: nat)
    ensures Depth(v, depth) >= depth + k <==> Nests(v, k)
    decreases v
  {
    if k > 1 {
      match v
      case Array(items) => ItemsDepth(items, depth + 1, k - 1);
      case Object(members) => MembersDepth(members, depth + 1, k - 1);
      case _ =>
    } else {
      match v
      case Array(items) => if items.Item? { DepthIsNesting(items.head, depth + 1, 0); }
      case Object(members) => if members.Member? { DepthIsNesting(members.value, depth + 1, 0); }
      case _ =>
    }
  }

  lemma {:induction false} ItemsDepth(items: Items, depth: nat, k: nat)
    requires k >= 1
    ensures DepthItems(items, depth) >= depth + k <==> ItemNests(items, k)
    decreases items
  {
    if items.Item? {
      DepthIsNesting(items.head, depth, k);
      ItemsDepth(items.tail, depth, k);
    }
  }

  lemma {:induction false} MembersDepth(members: Members, depth: nat, k: nat)
    requires k >= 1
    ensures DepthMembers(members, depth) >= depth + k <==> MemberNests(members, k)
    decreases members
  {
    if members.Member? {
      DepthIsNesting(members.value, depth, k);
      MembersDepth(members.rest, depth, k);
    }
  }
}
