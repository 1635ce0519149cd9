/**
 * The public "Trusted By Leading Brands" carousel: it loads the published
 * client logos in display order once on mount, doubles the list so the
 * marquee loops without a seam, and renders nothing when there is nothing
 * to show.
 */
module ClientLogosSection {
  import opened Wrappers
  import opened Remote
  import opened Numerals
  import opened ClientLogos

  /** What `select('*').eq('is_published', true).order('display_order')`
      returns: exactly the published rows, each as often as in the table,
      in ascending display order. */
  function PublishedInOrder(rows: seq<ClientLogo>): (r: seq<ClientLogo>)
    ensures forall i :: 0 <= i < |r| ==> r[i].cols.isPublished
    ensures SortedBy(r, DisplayOrder)
    ensures forall x :: multiset(r)[x] == if x.cols.isPublished then multiset(rows)[x] else 0
  {
    SortBy(Where(rows, IsPublished), DisplayOrder)
  }

  /** `[...clients, ...clients]`: the list twice over, for a seamless loop. */
  function Duplicated(clients: seq<ClientLogo>): (d: seq<ClientLogo>)
    ensures |d| == 2 * |clients|
    ensures forall i :: 0 <= i < |clients| ==> d[i] == clients[i] && d[i + |clients|] == clients[i]
  {
    clients + clients
  }

  /** The React key `${client.id}-${index}`: the id, a hyphen, then the
      index in decimal, so nothing after that hyphen is a hyphen. */
  function ItemKey(c: ClientLogo, index: nat): (k: string)
    ensures |k| > |c.id| + 1 && k[..|c.id|] == c.id && k[|c.id|] == '-'
    ensures forall p :: |c.id| < p < |k| ==> IsDigit(k[p])
  {
    var digits := NatToString(index);
    var k := c.id + "-" + digits;
    assert forall p :: |c.id| < p < |k| ==> k[p] == digits[p - |c.id| - 1];
    k
  }

  /** A key determines its position: the index is what follows the last
      hyphen, since ids may contain hyphens but rendered indices cannot. */
  lemma ItemKeyInjective(a: ClientLogo, i: nat, b: ClientLogo, j: nat)
    requires ItemKey(a, i) == ItemKey(b, j)
    ensures a.id == b.id && i == j
  {
    var k := ItemKey(a, i);
    assert !IsDigit('-');
    assert |a.id| == |b.id|;
    assert a.id == k[..|a.id|] == b.id;
    assert NatToString(i) == k[|a.id| + 1..] == NatToString(j);
    NatToStringInjective(i, j);
  }

  /** `client.website_url ? <a href=...> : <img>`: a link exactly when the
      website is neither null nor empty. */
  function LinkOf(c: ClientLogo): (link: Option<string>)
    ensures link.Some? <==> c.cols.websiteUrl.Some? && c.cols.websiteUrl.value != ""
    ensures link.Some? ==> link == c.cols.websiteUrl
  {
    match c.cols.websiteUrl
    case Some(url) => if url != "" then Some(url) else None
    case None => None
  }

  /** One logo in the marquee. */
  datatype Item = Item(key: string, name: string, logo: string, link: Option<string>)

  /** The logo at position `index`: its image shows the logo under the
      client's name, a link exactly when the website is neither null nor
      empty, and a key that starts with the client's id. */
  function ItemOf(c: ClientLogo, index: nat): (it: Item)
    ensures it.name == c.cols.clientName && it.logo == c.cols.logoUrl
    ensures it.link.Some? <==> c.cols.websiteUrl.Some? && c.cols.websiteUrl.value != ""
    ensures |it.key| > |c.id| && it.key[..|c.id|] == c.id
  {
    Item(ItemKey(c, index), c.cols.clientName, c.cols.logoUrl, LinkOf(c))
  }

  /** What the component returns: nothing, the header over a loading
      placeholder, or the header over the marquee. */
  datatype View = Hidden | Placeholder | Marquee(items: seq<Item>)

  /**
   * The render decision. The section is hidden exactly when loading is over
   * and no client was loaded; while loading it shows the placeholder and no
   * logo; otherwise every client appears twice, in order, under keys that
   * are pairwise distinct although ids repeat.
   */
  function Render(loading: bool, clients: seq<ClientLogo>): (v: View)
    ensures v == Hidden <==> !loading && |clients| == 0
    ensures v == Placeholder <==> loading
    ensures v.Marquee? ==> |v.items| == 2 * |clients|
    ensures v.Marquee? ==> forall i :: 0 <= i < |clients| ==>
      v.items[i] == ItemOf(clients[i], i) && v.items[i + |clients|] == ItemOf(clients[i], i + |clients|)
    ensures v.Marquee? ==> forall i, j :: 0 <= i < j < |v.items| ==> v.items[i].key != v.items[j].key
  {
    if !loading && |clients| == 0 then Hidden
    else if loading then Placeholder
    else
      var d := Duplicated(clients);
      var items := seq(|d|, i requires 0 <= i < |d| => ItemOf(d[i], i));
      DistinctKeys(d);
      Marquee(items)
  }

  lemma DistinctKeys(d: seq<ClientLogo>)
    ensures forall i, j :: 0 <= i < j < |d| ==> ItemKey(d[i], i) != ItemKey(d[j], j)
  {
    forall i, j | 0 <= i < j < |d|
      ensures ItemKey(d[i], i) != ItemKey(d[j], j)
    {
      if ItemKey(d[i], i) == ItemKey(d[j], j) {
        ItemKeyInjective(d[i], i, d[j], j);
      }
    }
  }

  /**
   * The section's state: the logos it shows and whether the first fetch is
   * still outstanding. It only reads `db`.
   */
  class Section {
    const db: Table<ClientColumns>
    var clients: seq<ClientLogo>
    var loading: bool

    /** The state on mount: no logos, loading. */
    constructor (db: Table<ClientColumns>)
      ensures this.db == db && clients == [] && loading
    {
      this.db := db;
      clients := [];
      loading := true;
    }

    /** The effect's `fetchClients()`: only an answer with rows replaces the
        list; an error or null data keeps it. Loading ends either way. */
    method FetchClients(status: Status)
      modifies this`clients, this`loading
      ensures clients == if status.Done? then PublishedInOrder(db.rows) else old(clients)
      ensures !loading
    {
      var resp := db.SelectWhere(IsPublished, DisplayOrder, status);
      if !resp.failed && resp.data.Some? {
        clients := resp.data.value;
      }
      loading := false;
    }

    /** The current output of the component. */
    function View(): View
      reads this
    {
      Render(loading, clients)
    }
  }
}
