// scripts/topology.py: the links of a simulated network, deduplicated by member
// set, the docker network each becomes, and who is adjacent to whom.
module Topology {
  import opened Wrappers
  import opened Identifiers
  import opened Ordering

  type Link = seq<string>

  function Members(link: Link): set<string>
  {
    set n | n in link
  }

  // ------------------------------------------------------------- deduplication

  /** The first link of each member set, in the order they appear. */
  function Dedup(links: seq<Link>): seq<Link>
  {
    if links == [] then []
    else
      var front, last := links[..|links| - 1], links[|links| - 1];
      Dedup(front) + if Members(last) in Keys(front) then [] else [last]
  }

  function Keys(links: seq<Link>): set<set<string>>
  {
    set l | l in links :: Members(l)
  }

  predicate KeysDiffer(links: seq<Link>)
  {
    forall i, j :: 0 <= i < j < |links| ==> Members(links[i]) != Members(links[j])
  }

  lemma {:induction false} DedupKeys(links: seq<Link>)
    ensures Keys(Dedup(links)) == Keys(links)
  {
    if links != [] {
      var front, last := links[..|links| - 1], links[|links| - 1];
      DedupKeys(front);
      assert links == front + [last];
      assert Keys(front + [last]) == Keys(front) + {Members(last)};
      assert Keys(Dedup(front) + [last]) == Keys(Dedup(front)) + {Members(last)};
    }
  }

  /** No two kept links join the same nodes. */
  lemma {:induction false} DedupKeysDiffer(links: seq<Link>)
    ensures KeysDiffer(Dedup(links))
  {
    if links != [] {
      var front, last := links[..|links| - 1], links[|links| - 1];
      DedupKeysDiffer(front);
      DedupKeys(front);
      forall i | 0 <= i < |Dedup(front)| ensures Members(Dedup(front)[i]) in Keys(front) {
        assert Dedup(front)[i] in Dedup(front);
        assert Members(Dedup(front)[i]) in Keys(Dedup(front));
      }
    }
  }

  /** Deduplicating changes nothing where the member sets already differ. */
  lemma {:induction false} DedupOfDistinct(links: seq<Link>)
    requires KeysDiffer(links)
    ensures Dedup(links) == links
  {
    if links != [] {
      var front, last := links[..|links| - 1], links[|links| - 1];
      DedupOfDistinct(front);
      assert Members(last) !in Keys(front);
    }
  }

  lemma {:induction false} DedupIdempotent(links: seq<Link>)
    ensures Dedup(Dedup(links)) == Dedup(links)
  {
    DedupKeysDiffer(links);
    DedupOfDistinct(Dedup(links));
  }

  /** The first link of `links` with the members of `link`. */
  ghost predicate FirstOfKind(links: seq<Link>, i: nat)
    requires i < |links|
  {
    forall j :: 0 <= j < i ==> Members(links[j]) != Members(links[i])
  }

  /** What is kept is exactly the first of each kind. */
  lemma {:induction false} DedupKeepsFirst(links: seq<Link>, link: Link)
    ensures link in Dedup(links) <==> exists i :: 0 <= i < |links| && links[i] == link && FirstOfKind(links, i)
  {
    if links != [] {
      var front, last := links[..|links| - 1], links[|links| - 1];
      var n := |links| - 1;
      DedupKeepsFirst(front, link);
      forall i | 0 <= i < n ensures FirstOfKind(links, i) <==> FirstOfKind(front, i) {
      }
      assert FirstOfKind(links, n) <==> Members(last) !in Keys(front);
      assert link in Dedup(front) ==> exists i :: 0 <= i < |front| && front[i] == link && FirstOfKind(links, i);
    }
  }

  lemma DedupMore(links: seq<Link>, i: nat)
    requires i < |links|
    ensures Keys(links[..i + 1]) == Keys(links[..i]) + {Members(links[i])}
    ensures Dedup(links[..i + 1]) ==
            Dedup(links[..i]) + if Members(links[i]) in Keys(links[..i]) then [] else [links[i]]
    ensures forall l :: l in links[..i + 1] <==> l in links[..i] || l == links[i]
  {
    assert links[..i + 1][..i] == links[..i] && links[..i + 1] == links[..i] + [links[i]];
    assert Keys(links[..i] + [links[i]]) == Keys(links[..i]) + {Members(links[i])};
  }

  /** The script's loop; a link without two distinct members is an error. */
  method DedupLinks(links: seq<Link>) returns (r: Result<seq<Link>, Link>)
    ensures r.Ok? <==> forall l :: l in links ==> |Members(l)| >= 2
    ensures r.Ok? ==> r.value == Dedup(links)
    ensures r.Err? ==> r.error in links && |Members(r.error)| < 2
  {
    var out: seq<Link> := [];
    var seen: set<set<string>> := {};
    for i := 0 to |links|
      invariant out == Dedup(links[..i]) && seen == Keys(links[..i])
      invariant forall l :: l in links[..i] ==> |Members(l)| >= 2
    {
      var link := links[i];
      var key := Members(link);
      if |key| < 2 {
        return Err(link);
      }
      DedupMore(links, i);
      if key !in seen {
        seen := seen + {key};
        out := out + [link];
      }
    }
    assert links[..|links|] == links;
    return Ok(out);
  }

  // ------------------------------------------------------------- network names

  function Insert(s: seq<string>, n: string): (r: seq<string>)
    ensures multiset(r) == multiset(s) + multiset{n}
  {
    if s == [] || Before(CodePoint, n, s[0]) then [n] + s
    else
      assert s == [s[0]] + s[1..];
      [s[0]] + Insert(s[1..], n)
  }

  function InOrder(s: seq<string>): (r: seq<string>)
    ensures multiset(r) == multiset(s)
  {
    if s == [] then []
    else
      assert s == [s[0]] + s[1..];
      Insert(InOrder(s[1..]), s[0])
  }

  function Join(parts: seq<string>): string
  {
    if parts == [] then [] else if |parts| == 1 then parts[0] else parts[0] + ['_'] + Join(parts[1..])
  }

  function LinkName(link: Link): string
  {
    "link_" + Join(InOrder(link))
  }

  predicate Plain(link: Link)
  {
    forall n :: n in link ==> '_' !in n
  }

  lemma {:induction false} SplitJoin(parts: seq<string>)
    requires parts != [] && Plain(parts)
    ensures Split(Join(parts), '_') == parts
  {
    if |parts| == 1 {
      assert parts[0] in parts;
      SplitPlain(parts[0], '_');
    } else {
      assert parts[0] in parts && parts == [parts[0]] + parts[1..];
      SplitFirst(parts[0], '_', Join(parts[1..]));
      SplitJoin(parts[1..]);
    }
  }

  lemma SortedMembers(link: Link)
    ensures Members(InOrder(link)) == Members(link) && |InOrder(link)| == |link|
    ensures Plain(link) ==> Plain(InOrder(link))
  {
    assert forall n :: n in InOrder(link) <==> n in multiset(InOrder(link));
    assert forall n :: n in link <==> n in multiset(link);
    assert |multiset(InOrder(link))| == |multiset(link)|;
  }

  /** Where node names hold no underscore, a network's name gives its members. */
  lemma NameGivesMembers(a: Link, b: Link)
    requires a != [] && b != [] && Plain(a) && Plain(b) && LinkName(a) == LinkName(b)
    ensures Members(a) == Members(b)
  {
    SortedMembers(a);
    SortedMembers(b);
    SplitJoin(InOrder(a));
    SplitJoin(InOrder(b));
    assert Join(InOrder(a)) == LinkName(a)[5..] && Join(InOrder(b)) == LinkName(b)[5..];
  }

  /** Kept links become networks of pairwise different names. */
  lemma NamesDiffer(links: seq<Link>, i: nat, j: nat)
    requires forall l :: l in links ==> l != [] && Plain(l)
    requires i < j < |Dedup(links)|
    ensures LinkName(Dedup(links)[i]) != LinkName(Dedup(links)[j])
  {
    var kept := Dedup(links);
    DedupKeysDiffer(links);
    assert kept[i] in kept && kept[j] in kept;
    DedupKeepsFirst(links, kept[i]);
    DedupKeepsFirst(links, kept[j]);
    assert kept[i] in links && kept[j] in links;
    if LinkName(kept[i]) == LinkName(kept[j]) {
      NameGivesMembers(kept[i], kept[j]);
    }
  }

  lemma PairName(x: string, y: string)
    requires x != [] && y != [] && x[0] < y[0]
    ensures LinkName([x, y]) == "link_" + (x + ['_'] + y)
  {
    var pair := [x, y];
    assert pair[1..] == [y] && InOrder([y][1..]) == [];
    assert InOrder([y]) == [y];
    assert InOrder(pair) == [x] + [y] == pair;
    assert Join([y]) == y;
  }

  /** With an underscore in a name two different links may share a network. */
  lemma UnderscoreClash()
    ensures var a, b: Link := ["p_q", "r"], ["p", "q_r"]; Members(a) != Members(b) && LinkName(a) == LinkName(b)
  {
    var a: Link, b: Link := ["p_q", "r"], ["p", "q_r"];
    assert "p_q" in Members(a) && "p_q" !in Members(b);
    PairName("p_q", "r");
    PairName("p", "q_r");
    assert "p_q" + ['_'] + "r" == "p_q_r" == "p" + ['_'] + "q_r";
  }

  // ---------------------------------------------------------------- adjacency

  /** The networks a node is attached to, in link order. */
  function Attached(links: seq<Link>, node: string): seq<string>
  {
    if links == [] then []
    else
      var front, last := links[..|links| - 1], links[|links| - 1];
      Attached(front, node) + Copies(last, node, LinkName(last))
  }

  /** One entry for each time `node` is named in the link. */
  function Copies(link: Link, node: string, net: string): seq<string>
  {
    if link == [] then []
    else Copies(link[..|link| - 1], node, net) + if link[|link| - 1] == node then [net] else []
  }

  ghost predicate Linked(links: seq<Link>, a: string, b: string)
  {
    a != b && exists l :: l in links && a in l && b in l
  }

  lemma {:induction false} CopiesOf(link: Link, node: string, net: string)
    ensures forall x :: x in Copies(link, node, net) <==> x == net && node in link
  {
    if link != [] {
      CopiesOf(link[..|link| - 1], node, net);
      assert link == link[..|link| - 1] + [link[|link| - 1]];
    }
  }

  /** Some link of `links` that names `node` becomes network `net`. */
  ghost predicate NetworkOf(links: seq<Link>, node: string, net: string)
  {
    exists l :: l in links && node in l && LinkName(l) == net
  }

  lemma NetworkMore(links: seq<Link>, last: Link, node: string, net: string)
    ensures NetworkOf(links + [last], node, net) <==>
              NetworkOf(links, node, net) || (node in last && LinkName(last) == net)
  {
    var all := links + [last];
    if NetworkOf(links, node, net) {
      var l :| l in links && node in l && LinkName(l) == net;
      assert l in all;
    }
    assert last in all;
  }

  lemma {:induction false} AttachedTo(links: seq<Link>, node: string, net: string)
    ensures net in Attached(links, node) <==> NetworkOf(links, node, net)
  {
    if links != [] {
      var front, last := links[..|links| - 1], links[|links| - 1];
      AttachedTo(front, node, net);
      CopiesOf(last, node, LinkName(last));
      assert links == front + [last];
      NetworkMore(front, last, node, net);
    }
  }

  ghost predicate ShareNetwork(links: seq<Link>, a: string, b: string)
  {
    exists net :: net in Attached(links, a) && net in Attached(links, b)
  }

  /** In a network of plain names, two nodes share a docker network
      exactly when some link joins them. */
  lemma {:induction false} AdjacentIffShared(links: seq<Link>, a: string, b: string)
    requires a != b && forall l :: l in links ==> Plain(l)
    ensures Linked(links, a, b) <==> ShareNetwork(links, a, b)
  {
    if Linked(links, a, b) {
      var l :| l in links && a in l && b in l;
      AttachedTo(links, a, LinkName(l));
      AttachedTo(links, b, LinkName(l));
    }
    if ShareNetwork(links, a, b) {
      var net :| net in Attached(links, a) && net in Attached(links, b);
      AttachedTo(links, a, net);
      AttachedTo(links, b, net);
      var l :| l in links && a in l && LinkName(l) == net;
      var k :| k in links && b in k && LinkName(k) == net;
      NameGivesMembers(l, k);
      assert b in Members(l);
    }
  }

  function Neighbours(links: seq<Link>, node: string): set<string>
  {
    if links == [] then {}
    else
      var front, last := links[..|links| - 1], links[|links| - 1];
      Neighbours(front, node) + if node in last then Members(last) - {node} else {}
  }

  lemma {:induction false} NeighboursAreLinked(links: seq<Link>, a: string, b: string)
    ensures b in Neighbours(links, a) <==> Linked(links, a, b)
  {
    if links != [] {
      var front, last := links[..|links| - 1], links[|links| - 1];
      NeighboursAreLinked(front, a, b);
      assert links == front + [last];
      assert Linked(links, a, b) <==> Linked(front, a, b) || (a != b && a in last && b in last);
    }
  }

  /** `cmd_graph`: each node's neighbours, gathered pair by pair. */
  method Adjacency(links: seq<Link>, nodes: set<string>) returns (adj: map<string, set<string>>)
    requires forall l, n :: l in links && n in l ==> n in nodes
    ensures adj.Keys == nodes
    ensures forall a, b :: a in nodes ==> (b in adj[a] <==> Linked(links, a, b))
  {
    adj := map n | n in nodes :: {};
    for i := 0 to |links|
      invariant adj.Keys == nodes
      invariant forall a :: a in nodes ==> adj[a] == Neighbours(links[..i], a)
    {
      assert links[i] in links;
      adj := AddLink(adj, links[i]);
      assert links[..i + 1][..i] == links[..i];
    }
    assert links[..|links|] == links;
    forall a, b | a in nodes ensures b in adj[a] <==> Linked(links, a, b) {
      NeighboursAreLinked(links, a, b);
    }
  }

  /** Every member of the link gains every other. */
  method AddLink(adj: map<string, set<string>>, link: Link) returns (after: map<string, set<string>>)
    requires forall n :: n in link ==> n in adj
    ensures after.Keys == adj.Keys
    ensures forall n :: n in adj ==> after[n] == adj[n] + if n in link then Members(link) - {n} else {}
  {
    after := adj;
    for j := 0 to |link|
      invariant after.Keys == adj.Keys
      invariant forall n :: n in adj ==> after[n] == adj[n] + if n in link[..j] then Members(link) - {n} else {}
    {
      var a := link[j];
      assert a in link;
      var gained := Others(after[a], a, link);
      after := after[a := gained];
      assert forall n :: n in link[..j + 1] <==> n in link[..j] || n == a;
    }
    assert link[..|link|] == link;
  }

  /** The innermost loop: `near` gains every member of the link but `a` itself. */
  method Others(near: set<string>, a: string, link: Link) returns (r: set<string>)
    ensures r == near + (Members(link) - {a})
  {
    r := near;
    for k := 0 to |link|
      invariant r == near + (Members(link[..k]) - {a})
    {
      var b := link[k];
      if a != b {
        r := r + {b};
      }
      MembersMore(link[..k], b);
      assert link[..k + 1] == link[..k] + [b];
    }
    assert link[..|link|] == link;
  }

  lemma MembersMore(link: Link, n: string)
    ensures Members(link + [n]) == Members(link) + {n}
  {
  }
}
