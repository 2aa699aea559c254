/** `groupByOperator`: web/lib/operators.ts:60-86. */
module Operators {
  import opened Outcomes
  import opened Strings

  datatype Node = Node(
    address: string, name: string, operatorAddress: Option<string>, online: bool, verified: bool,
    category: string, jurisdiction: string, description: string, logoUrl: Option<string>, websiteUrl: Option<string>)

  datatype Group = Group(
    address: string, nameShown: string, nodes: seq<Node>, onlineCount: nat, verified: bool, category: string,
    jurisdiction: string, description: string, logoUrl: Option<string>, websiteUrl: Option<string>)

  /** The part of a name before the first spaced dash, trimmed. */
  type Shortener = string -> string

  /** The lower-cased operator; a node with none recorded operates itself. */
  function Key(n: Node): string {
    ToLower(if n.operatorAddress.Some? && n.operatorAddress.value != "" then n.operatorAddress.value else n.address)
  }

  /** The keys in order of first occurrence. */
  function Keys(nodes: seq<Node>): seq<string> {
    if nodes == [] then []
    else
      var before, k := Keys(nodes[..|nodes| - 1]), Key(nodes[|nodes| - 1]);
      if k in before then before else before + [k]
  }

  /** The nodes of one key, in input order. */
  function Of(nodes: seq<Node>, k: string): seq<Node> {
    if nodes == [] then []
    else Of(nodes[..|nodes| - 1], k) + (if Key(nodes[|nodes| - 1]) == k then [nodes[|nodes| - 1]] else [])
  }

  function Online(nodes: seq<Node>): nat {
    if nodes == [] then 0 else Online(nodes[..|nodes| - 1]) + (if nodes[|nodes| - 1].online then 1 else 0)
  }

  /** `operatorLabel`: what the names share before the dash, or else the first name. */
  function Label(nodes: seq<Node>, shorten: Shortener): string {
    if nodes == [] then "Unknown operator"
    else if |nodes| == 1 then nodes[0].name
    else
      var candidate := shorten(nodes[0].name);
      if candidate != "" && forall i :: 0 <= i < |nodes| ==> HasPrefix(nodes[i].name, candidate) then candidate
      else nodes[0].name
  }

  /** The first link that is set. */
  function FirstSet(links: seq<Option<string>>): Option<string> {
    if links == [] then None
    else if links[0].Some? && links[0].value != "" then links[0]
    else FirstSet(links[1..])
  }

  function Logos(nodes: seq<Node>): (r: seq<Option<string>>)
    ensures |r| == |nodes| && forall i :: 0 <= i < |nodes| ==> r[i] == nodes[i].logoUrl
  {
    seq(|nodes|, i requires 0 <= i < |nodes| => nodes[i].logoUrl)
  }

  function Websites(nodes: seq<Node>): (r: seq<Option<string>>)
    ensures |r| == |nodes| && forall i :: 0 <= i < |nodes| ==> r[i] == nodes[i].websiteUrl
  {
    seq(|nodes|, i requires 0 <= i < |nodes| => nodes[i].websiteUrl)
  }

  function Summary(k: string, nodes: seq<Node>, shorten: Shortener): Group
    requires nodes != []
  {
    Group(k, Label(nodes, shorten), nodes, Online(nodes), forall i :: 0 <= i < |nodes| ==> nodes[i].verified,
          nodes[0].category, nodes[0].jurisdiction, nodes[0].description,
          FirstSet(Logos(nodes)), FirstSet(Websites(nodes)))
  }

  /** The key is the operator in lower case, or the node's own address when no operator is recorded. */
  lemma KeyExactly(n: Node)
    ensures n.operatorAddress == None || n.operatorAddress == Some("") ==> Key(n) == ToLower(n.address)
    ensures n.operatorAddress.Some? && n.operatorAddress != Some("") ==> Key(n) == ToLower(n.operatorAddress.value)
  {
    hide ToLower;
  }

  /** How many nodes of a group are online. */
  lemma {:induction false} OnlineExactly(nodes: seq<Node>)
    ensures Online(nodes) == |OnlineAt(nodes)|
  {
    if nodes != [] {
      var n := |nodes| - 1;
      OnlineExactly(nodes[..n]);
      assert OnlineAt(nodes) == OnlineAt(nodes[..n]) + (if nodes[n].online then {n} else {});
    }
  }

  /** The positions of the nodes that are online. */
  function OnlineAt(nodes: seq<Node>): set<nat> {
    set i: nat | i < |nodes| && nodes[i].online
  }

  /** What a group shows. */
  lemma SummaryExactly(k: string, nodes: seq<Node>, shorten: Shortener)
    requires nodes != []
    ensures var g := Summary(k, nodes, shorten);
            && g.address == k && g.nodes == nodes && g.nameShown == Label(nodes, shorten)
            && g.onlineCount == |OnlineAt(nodes)|
            && (g.verified <==> forall n :: n in nodes ==> n.verified)
            && g.category == nodes[0].category && g.jurisdiction == nodes[0].jurisdiction
            && g.description == nodes[0].description
            && g.logoUrl == FirstSet(Logos(nodes)) && g.websiteUrl == FirstSet(Websites(nodes))
  {
    OnlineExactly(nodes);
    if forall i :: 0 <= i < |nodes| ==> nodes[i].verified {
      forall n | n in nodes
        ensures n.verified
      {
        var i :| 0 <= i < |nodes| && nodes[i] == n;
      }
    }
  }

  /**
    The label of two nodes or more is what comes before the dash in the first name, if that is not empty and every name
    begins with it, and otherwise the first name; a single node is called by its name.
   */
  lemma LabelExactly(nodes: seq<Node>, shorten: Shortener)
    ensures nodes == [] ==> Label(nodes, shorten) == "Unknown operator"
    ensures |nodes| == 1 ==> Label(nodes, shorten) == nodes[0].name
    ensures |nodes| >= 2 ==>
              var head := shorten(nodes[0].name);
              Label(nodes, shorten) ==
              if head == "" || exists n :: n in nodes && !(head <= n.name) then nodes[0].name else head
  {
    if |nodes| >= 2 {
      var head := shorten(nodes[0].name);
      if n :| n in nodes && !(head <= n.name) {
        var i :| 0 <= i < |nodes| && nodes[i] == n;
        assert !HasPrefix(nodes[i].name, head);
      }
    }
  }

  /** A group's label names every node in it, unless it is the first node's own name. */
  lemma LabelNamesAll(nodes: seq<Node>, shorten: Shortener)
    requires nodes != []
    ensures var shown := Label(nodes, shorten);
            shown == nodes[0].name || (shown != "" && forall n :: n in nodes ==> HasPrefix(n.name, shown))
  {
    forall n | n in nodes && Label(nodes, shorten) != nodes[0].name
      ensures HasPrefix(n.name, Label(nodes, shorten))
    {
      var i :| 0 <= i < |nodes| && nodes[i] == n;
    }
  }

  /** A group shows a link exactly when some node has one, and then the first such. */
  lemma {:induction false} LinkIsFirst(links: seq<Option<string>>)
    ensures FirstSet(links) == None <==> forall i :: 0 <= i < |links| ==> links[i] == None || links[i] == Some("")
    ensures FirstSet(links).Some? ==>
              exists i :: 0 <= i < |links| && links[i] == FirstSet(links) &&
                          forall j :: 0 <= j < i ==> links[j] == None || links[j] == Some("")
  {
    if links != [] && FirstSet(links) == FirstSet(links[1..]) && !(links[0].Some? && links[0].value != "") {
      var rest := links[1..];
      LinkIsFirst(rest);
      assert forall i :: 0 <= i < |rest| ==> rest[i] == links[i + 1];
      assert links[0] == None || links[0] == Some("");
      if FirstSet(rest).Some? {
        var i :| 0 <= i < |rest| && rest[i] == FirstSet(rest) &&
                 forall j :: 0 <= j < i ==> rest[j] == None || rest[j] == Some("");
        assert links[i + 1] == FirstSet(links);
        forall j | 0 <= j < i + 1
          ensures links[j] == None || links[j] == Some("")
        {
          assert j > 0 ==> rest[j - 1] == links[j];
        }
      }
    }
  }

  lemma LastKey(nodes: seq<Node>, k: string)
    requires nodes != []
    ensures var init, last := nodes[..|nodes| - 1], Key(nodes[|nodes| - 1]);
            && (k in Keys(nodes) <==> k in Keys(init) || k == last)
            && (Of(nodes, k) != [] <==> Of(init, k) != [] || k == last)
  {
    hide Key;
  }

  predicate Occurs(nodes: seq<Node>, k: string) {
    exists i :: 0 <= i < |nodes| && Key(nodes[i]) == k
  }

  lemma OccursLast(nodes: seq<Node>, k: string)
    requires nodes != []
    ensures Occurs(nodes, k) <==> Occurs(nodes[..|nodes| - 1], k) || k == Key(nodes[|nodes| - 1])
  {
    hide Key;
    var init := nodes[..|nodes| - 1];
    if i :| 0 <= i < |nodes| && Key(nodes[i]) == k {
      assert i < |init| ==> init[i] == nodes[i];
    }
    if i :| 0 <= i < |init| && Key(init[i]) == k {
      assert Key(nodes[i]) == k;
    }
  }

  /** A key has a group exactly when some node has the key. */
  lemma {:induction false} KeyOccurs(nodes: seq<Node>, k: string)
    ensures k in Keys(nodes) <==> Occurs(nodes, k)
    ensures k in Keys(nodes) <==> Of(nodes, k) != []
  {
    if nodes != [] {
      hide Key, Keys, Of, Occurs;
      KeyOccurs(nodes[..|nodes| - 1], k);
      LastKey(nodes, k);
      OccursLast(nodes, k);
    }
  }

  /** The insertion-ordered map of lists: `order` holds its keys. */
  ghost predicate Filled(order: seq<string>, byOperator: map<string, seq<Node>>, nodes: seq<Node>) {
    && order == Keys(nodes)
    && (forall k :: k in byOperator <==> k in order)
    && (forall k :: k in byOperator ==> byOperator[k] == Of(nodes, k))
  }

  lemma FilledNext(order: seq<string>, byOperator: map<string, seq<Node>>, nodes: seq<Node>, node: Node)
    requires Filled(order, byOperator, nodes)
    ensures Key(node) in byOperator ==>
              Filled(order, byOperator[Key(node) := byOperator[Key(node)] + [node]], nodes + [node])
    ensures Key(node) !in byOperator ==>
              Filled(order + [Key(node)], byOperator[Key(node) := [node]], nodes + [node])
  {
    hide Key;
    assert (nodes + [node])[..|nodes|] == nodes;
    KeyOccurs(nodes, Key(node));
  }

  /** Fills an insertion-ordered map of lists, then describes each entry. */
  method GroupByOperator(nodes: seq<Node>, shorten: Shortener) returns (groups: seq<Group>)
    ensures |groups| == |Keys(nodes)|
    ensures forall g :: 0 <= g < |groups| ==>
              && Of(nodes, Keys(nodes)[g]) != []
              && groups[g] == Summary(Keys(nodes)[g], Of(nodes, Keys(nodes)[g]), shorten)
  {
    hide Key, Summary, Keys, Of, Filled;
    var order: seq<string> := [];
    var byOperator: map<string, seq<Node>> := map[];
    assert Filled(order, byOperator, nodes[..0]) by { NothingFilled(); }
    for i := 0 to |nodes|
      invariant Filled(order, byOperator, nodes[..i])
    {
      var node := nodes[i];
      var key := Key(node);
      FilledNext(order, byOperator, nodes[..i], node);
      assert nodes[..i + 1] == nodes[..i] + [node];
      if key in byOperator {
        byOperator := byOperator[key := byOperator[key] + [node]];
      } else {
        order := order + [key];
        byOperator := byOperator[key := [node]];
      }
    }
    assert nodes[..|nodes|] == nodes;
    FilledKeys(order, byOperator, nodes);
    groups := [];
    for g := 0 to |order|
      invariant |groups| == g
      invariant forall h :: 0 <= h < g ==>
                  Of(nodes, order[h]) != [] && groups[h] == Summary(order[h], Of(nodes, order[h]), shorten)
    {
      Entry(order, byOperator, nodes, g);
      groups := groups + [Summary(order[g], byOperator[order[g]], shorten)];
    }
  }

  lemma NothingFilled()
    ensures Filled([], map[], [])
  {
  }

  lemma Entry(order: seq<string>, byOperator: map<string, seq<Node>>, nodes: seq<Node>, g: nat)
    requires Filled(order, byOperator, nodes) && g < |order|
    ensures order[g] in byOperator && byOperator[order[g]] == Of(nodes, order[g]) != []
  {
    KeyOccurs(nodes, order[g]);
  }

  lemma FilledKeys(order: seq<string>, byOperator: map<string, seq<Node>>, nodes: seq<Node>)
    requires Filled(order, byOperator, nodes)
    ensures order == Keys(nodes)
  {
  }

  /* ---------- a stable partition ---------- */

  lemma {:induction false} KeysDistinct(nodes: seq<Node>)
    ensures forall a, b :: 0 <= a < b < |Keys(nodes)| ==> Keys(nodes)[a] != Keys(nodes)[b]
    ensures forall a :: 0 <= a < |Keys(nodes)| ==> ToLower(Keys(nodes)[a]) == Keys(nodes)[a]
  {
    if nodes != [] {
      KeysDistinct(nodes[..|nodes| - 1]);
    }
  }

  /** Where the node at i ends up: its group, and its place there. */
  function GroupIndex(nodes: seq<Node>, i: nat): (g: nat)
    requires i < |nodes|
    ensures g < |Keys(nodes)| && Keys(nodes)[g] == Key(nodes[i])
  {
    KeyOccurs(nodes, Key(nodes[i]));
    KeysDistinct(nodes);
    var g :| 0 <= g < |Keys(nodes)| && Keys(nodes)[g] == Key(nodes[i]);
    g
  }

  function Place(nodes: seq<Node>, i: nat): nat
    requires i < |nodes|
  {
    |Of(nodes[..i], Key(nodes[i]))|
  }

  lemma {:induction false} OfPrefix(nodes: seq<Node>, i: nat, k: string)
    requires i <= |nodes|
    ensures Of(nodes[..i], k) <= Of(nodes, k)
    decreases |nodes|
  {
    if i < |nodes| {
      var init := nodes[..|nodes| - 1];
      OfPrefix(init, i, k);
      assert init[..i] == nodes[..i];
    } else {
      assert nodes[..i] == nodes;
    }
  }

  lemma OfNext(nodes: seq<Node>, i: nat, k: string)
    requires i < |nodes|
    ensures Of(nodes[..i + 1], k) == Of(nodes[..i], k) + (if Key(nodes[i]) == k then [nodes[i]] else [])
  {
    assert nodes[..i + 1][..i] == nodes[..i];
  }

  /** Every node is in its group, at its place. */
  lemma {:induction false} NodeAtPlace(nodes: seq<Node>, i: nat)
    requires i < |nodes|
    ensures var group := Of(nodes, Keys(nodes)[GroupIndex(nodes, i)]);
            Place(nodes, i) < |group| && group[Place(nodes, i)] == nodes[i]
  {
    var k := Key(nodes[i]);
    OfNext(nodes, i, k);
    OfPrefix(nodes, i + 1, k);
  }

  /** Every place in a group is filled by exactly one node of the input. */
  lemma {:induction false} PlaceFilled(nodes: seq<Node>, k: string, p: nat) returns (i: nat)
    requires p < |Of(nodes, k)|
    ensures i < |nodes| && Key(nodes[i]) == k && Place(nodes, i) == p
  {
    var init := nodes[..|nodes| - 1];
    if p < |Of(init, k)| {
      i := PlaceFilled(init, k, p);
      assert init[..i] == nodes[..i];
    } else {
      i := |nodes| - 1;
    }
  }

  /** Within a group, places follow input order; so no two nodes share one. */
  lemma PlacesFollowInput(nodes: seq<Node>, i: nat, j: nat)
    requires i < j < |nodes| && Key(nodes[i]) == Key(nodes[j])
    ensures Place(nodes, i) < Place(nodes, j)
  {
    var k := Key(nodes[i]);
    OfNext(nodes, i, k);
    OfPrefix(nodes[..j], i + 1, k);
    assert nodes[..j][..i + 1] == nodes[..i + 1];
  }

  /** A group comes before another exactly when its first node does. */
  lemma {:induction false} FirstOccurrenceOrder(nodes: seq<Node>, a: nat, b: nat) returns (i: nat, j: nat)
    requires a < b < |Keys(nodes)|
    ensures i < j < |nodes| && Key(nodes[i]) == Keys(nodes)[a] && Key(nodes[j]) == Keys(nodes)[b]
    ensures forall m :: 0 <= m < i ==> Key(nodes[m]) != Keys(nodes)[a]
    ensures forall m :: 0 <= m < j ==> Key(nodes[m]) != Keys(nodes)[b]
  {
    var init := nodes[..|nodes| - 1];
    if b < |Keys(init)| {
      i, j := FirstOccurrenceOrder(init, a, b);
      assert forall m :: 0 <= m < |init| ==> init[m] == nodes[m];
    } else {
      j := |nodes| - 1;
      var k := Keys(nodes)[a];
      i := FirstOf(init, k);
      KeyOccurs(init, Keys(nodes)[b]);
      assert forall m :: 0 <= m < |init| ==> init[m] == nodes[m];
    }
  }

  lemma {:induction false} FirstOf(nodes: seq<Node>, k: string) returns (i: nat)
    requires k in Keys(nodes)
    ensures i < |nodes| && Key(nodes[i]) == k && forall m :: 0 <= m < i ==> Key(nodes[m]) != k
  {
    hide Key, Of;
    var init := nodes[..|nodes| - 1];
    KeyOccurs(init, k);
    if k in Keys(init) {
      i := FirstOf(init, k);
    } else {
      i := |nodes| - 1;
      forall m | 0 <= m < i
        ensures Key(nodes[m]) != k
      {
        assert init[m] == nodes[m];
      }
    }
  }

  /** The groups of some keys, one after another. */
  function Flat(nodes: seq<Node>, keys: seq<string>): seq<Node> {
    if keys == [] then [] else Flat(nodes, keys[..|keys| - 1]) + Of(nodes, keys[|keys| - 1])
  }

  lemma OfAppended(nodes: seq<Node>, last: Node, k: string)
    ensures multiset(Of(nodes + [last], k)) ==
            multiset(Of(nodes, k)) + (if Key(last) == k then multiset{last} else multiset{})
  {
    hide Key;
    assert (nodes + [last])[..|nodes|] == nodes;
  }

  lemma FlatSplit(nodes: seq<Node>, keys: seq<string>)
    requires keys != []
    ensures multiset(Flat(nodes, keys)) ==
            multiset(Flat(nodes, keys[..|keys| - 1])) + multiset(Of(nodes, keys[|keys| - 1]))
  {
    hide Of;
  }

  predicate Distinct(keys: seq<string>) {
    forall a, b :: 0 <= a < b < |keys| ==> keys[a] != keys[b]
  }

  lemma DistinctInit(keys: seq<string>, x: string)
    requires Distinct(keys) && keys != []
    ensures Distinct(keys[..|keys| - 1])
    ensures keys[|keys| - 1] !in keys[..|keys| - 1]
    ensures x in keys <==> x in keys[..|keys| - 1] || x == keys[|keys| - 1]
  {
    assert keys == keys[..|keys| - 1] + [keys[|keys| - 1]];
  }

  /** One more node adds itself to the group of its key, if that is one of the keys. */
  lemma {:induction false} FlatNext(nodes: seq<Node>, last: Node, keys: seq<string>)
    requires Distinct(keys)
    ensures multiset(Flat(nodes + [last], keys)) ==
            multiset(Flat(nodes, keys)) + (if Key(last) in keys then multiset{last} else multiset{})
  {
    if keys != [] {
      hide Key, Keys, Of, Flat, Distinct;
      var init, k := keys[..|keys| - 1], keys[|keys| - 1];
      DistinctInit(keys, Key(last));
      FlatNext(nodes, last, init);
      FlatSplit(nodes, keys);
      FlatSplit(nodes + [last], keys);
      OfAppended(nodes, last, k);
    }
  }

  lemma FlatNewKey(nodes: seq<Node>, k: string)
    requires k !in Keys(nodes)
    ensures Flat(nodes, Keys(nodes) + [k]) == Flat(nodes, Keys(nodes))
  {
    KeyOccurs(nodes, k);
    assert (Keys(nodes) + [k])[..|Keys(nodes)|] == Keys(nodes);
  }

  /** Put together, the groups are the input, every node once; so their sizes add up to its length. */
  lemma {:induction false} GroupsHoldEveryNodeOnce(nodes: seq<Node>)
    ensures multiset(Flat(nodes, Keys(nodes))) == multiset(nodes)
    ensures |Flat(nodes, Keys(nodes))| == |nodes|
  {
    if nodes != [] {
      hide Key, Flat, Of;
      var init, last := nodes[..|nodes| - 1], nodes[|nodes| - 1];
      assert nodes == init + [last];
      GroupsHoldEveryNodeOnce(init);
      KeysDistinct(nodes);
      assert Distinct(Keys(nodes));
      FlatNext(init, last, Keys(nodes));
      if Key(last) !in Keys(init) {
        FlatNewKey(init, Key(last));
      }
    }
    assert |multiset(Flat(nodes, Keys(nodes)))| == |Flat(nodes, Keys(nodes))|;
    assert |multiset(nodes)| == |nodes|;
  }
}
