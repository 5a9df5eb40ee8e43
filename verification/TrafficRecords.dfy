/** The traffic records that a process keeps in memory, one for each name of a monitored function. */
module TrafficRecords {
  import opened MapTotals
  import opened Wrappers

  type Name = string
  type Status = string
  type Group = Option<string>

  /** How much is counted: per name; also per group; also per status of each group. */
  datatype Level = Summary | Groups | GroupDetails

  datatype GroupData = Count(count: nat) | Detail(detail: nat, status: map<Status, nat>) {
    function Requests(): nat {
      if Count? then count else detail
    }

    function StatusCount(s: Status): nat {
      if Count? then 0 else At(status, s)
    }
  }

  datatype Record = Record(requests: nat, status: map<Status, nat>, groups: map<Group, GroupData>) {
    function GroupRequests(g: Group): nat {
      if g in groups then groups[g].Requests() else 0
    }

    function GroupCounts(): map<Group, nat> {
      map g | g in groups :: groups[g].Requests()
    }
  }

  type Data = map<Name, Record>

  /** What one logged call reports. */
  datatype Entry = Entry(name: Name, group: Group, status: Status)

  // ----- Counters -----

  /** Every number of a record that counts calls. */
  datatype Counter =
    | OfName(name: Name)
    | OfStatus(name: Name, status: Status)
    | OfGroup(name: Name, group: Group)
    | OfGroupStatus(name: Name, group: Group, status: Status)

  /** The counter counts the call. */
  predicate Hits(e: Entry, c: Counter) {
    && e.name == c.name
    && match c
       case OfName(_) => true
       case OfStatus(_, s) => e.status == s
       case OfGroup(_, g) => e.group == g
       case OfGroupStatus(_, g, s) => e.group == g && e.status == s
  }

  /** The counter exists at the level. */
  predicate Kept(level: Level, c: Counter) {
    match c
    case OfName(_) => true
    case OfStatus(_, _) => true
    case OfGroup(_, _) => level != Summary
    case OfGroupStatus(_, _, _) => level == GroupDetails
  }

  function ReadRecord(r: Record, c: Counter): nat {
    match c
    case OfName(_) => r.requests
    case OfStatus(_, s) => At(r.status, s)
    case OfGroup(_, g) => r.GroupRequests(g)
    case OfGroupStatus(_, g, s) => if g in r.groups then r.groups[g].StatusCount(s) else 0
  }

  function Read(data: Data, c: Counter): nat {
    if c.name in data then ReadRecord(data[c.name], c) else 0
  }

  // ----- Consistent records -----

  predicate Shaped(level: Level, r: Record) {
    match level
    case Summary => r.groups == map[]
    case Groups => forall g :: g in r.groups ==> r.groups[g].Count?
    case GroupDetails => forall g :: g in r.groups ==> r.groups[g].Detail?
  }

  /** The requests of a record are the sum over its statuses and, where they are kept, over its groups. */
  ghost predicate Balanced(level: Level, r: Record) {
    && Shaped(level, r)
    && r.requests == MapTotal(r.status)
    && (level != Summary ==> r.requests == MapTotal(r.GroupCounts()))
    && forall g :: g in r.groups && r.groups[g].Detail? ==> r.groups[g].detail == MapTotal(r.groups[g].status)
  }

  // ----- Counting a call -----

  function AddStatus(m: map<Status, nat>, s: Status): map<Status, nat> {
    m[s := At(m, s) + 1]
  }

  function AddToGroup(level: Level, r: Record, e: Entry): map<Group, GroupData>
    requires Shaped(level, r)
  {
    match level
    case Summary => r.groups
    case Groups => r.groups[e.group := Count(r.GroupRequests(e.group) + 1)]
    case GroupDetails =>
      if e.group in r.groups then
        var g := r.groups[e.group];
        r.groups[e.group := Detail(g.detail + 1, AddStatus(g.status, e.status))]
      else r.groups[e.group := Detail(1, map[e.status := 1])]
  }

  function NewRecord(level: Level, e: Entry): Record {
    Record(1, map[e.status := 1],
           match level
           case Summary => map[]
           case Groups => map[e.group := Count(1)]
           case GroupDetails => map[e.group := Detail(1, map[e.status := 1])])
  }

  function AddToRecord(level: Level, r: Record, e: Entry): Record
    requires Shaped(level, r)
  {
    Record(r.requests + 1, AddStatus(r.status, e.status), AddToGroup(level, r, e))
  }

  const EMPTY := Record(0, map[], map[])

  /** A new record is an empty one with the call added. */
  lemma NewRecordAdds(level: Level, e: Entry)
    ensures Balanced(level, EMPTY)
    ensures NewRecord(level, e) == AddToRecord(level, EMPTY, e)
  {
    assert EMPTY.GroupCounts() == map[];
  }

  /** A level keeps exactly the counters that the first call of a name sets to 1. */
  lemma KeptExactly(level: Level, e: Entry, c: Counter)
    requires Hits(e, c)
    ensures Kept(level, c) <==> ReadRecord(NewRecord(level, e), c) == 1
  {
  }

  /** Each level keeps more: statuses always, groups from the second level on, their statuses on the third. */
  lemma LevelsKeep(name: Name, g: Group, s: Status)
    ensures forall level :: Kept(level, OfName(name)) && Kept(level, OfStatus(name, s))
    ensures forall level :: Kept(level, OfGroup(name, g)) <==> level in {Groups, GroupDetails}
    ensures forall level :: Kept(level, OfGroupStatus(name, g, s)) <==> level == GroupDetails
  {
  }

  lemma AddToRecordReads(level: Level, r: Record, e: Entry, c: Counter)
    requires Shaped(level, r) && e.name == c.name && Kept(level, c)
    ensures ReadRecord(AddToRecord(level, r, e), c) == ReadRecord(r, c) + if Hits(e, c) then 1 else 0
  {
  }

  lemma AddToRecordBalanced(level: Level, r: Record, e: Entry)
    requires Balanced(level, r)
    ensures Balanced(level, AddToRecord(level, r, e))
  {
    hide MapTotal;
    MapTotalUpdate(r.status, e.status, At(r.status, e.status) + 1);
    match level
    case Summary =>
    case Groups => AddToGroupCounts(level, r, e);
    case GroupDetails =>
      AddToGroupCounts(level, r, e);
      NewGroupBalanced(e.status);
      if e.group in r.groups {
        AddToGroupBalanced(r.groups[e.group], e.status);
      }
  }

  lemma AddToGroupCounts(level: Level, r: Record, e: Entry)
    requires Balanced(level, r) && level != Summary
    ensures MapTotal(AddToRecord(level, r, e).GroupCounts()) == r.requests + 1
  {
    hide MapTotal;
    var n := r.GroupRequests(e.group) + 1;
    assert AddToRecord(level, r, e).GroupCounts() == r.GroupCounts()[e.group := n];
    MapTotalUpdate(r.GroupCounts(), e.group, n);
  }

  lemma AddToGroupBalanced(g: GroupData, s: Status)
    requires g.Detail? && g.detail == MapTotal(g.status)
    ensures g.detail + 1 == MapTotal(AddStatus(g.status, s))
  {
    MapTotalUpdate(g.status, s, At(g.status, s) + 1);
  }

  lemma NewGroupBalanced(s: Status)
    ensures MapTotal(map[s := 1]) == 1
  {
    MapTotalUpdate(map[], s, 1);
  }

  // ----- Clearing -----

  function CleanedCounts<K>(m: map<K, nat>): map<K, nat> {
    map k | k in m :: 0
  }

  function CleanedGroup(g: GroupData): GroupData {
    if g.Count? then Count(0) else Detail(0, CleanedCounts(g.status))
  }

  /** _clean_traffic_data: the keys stay and every number becomes 0. */
  function CleanedRecord(r: Record): Record {
    Record(0, CleanedCounts(r.status), map g | g in r.groups :: CleanedGroup(r.groups[g]))
  }

  function Cleaned(data: Data): Data {
    map name | name in data :: CleanedRecord(data[name])
  }

  lemma CleanedBalanced(level: Level, r: Record)
    requires Shaped(level, r)
    ensures Balanced(level, CleanedRecord(r))
  {
    var r' := CleanedRecord(r);
    MapTotalZero(r'.status);
    MapTotalZero(r'.GroupCounts());
    forall g | g in r'.groups && r'.groups[g].Detail? ensures MapTotal(r'.groups[g].status) == 0 {
      MapTotalZero(r'.groups[g].status);
    }
  }

  lemma CleanedReads(data: Data, c: Counter)
    ensures Read(Cleaned(data), c) == 0
  {
  }

  /** _has_traffic_data */
  predicate HasTrafficData(data: Data) {
    exists name :: name in data && data[name].requests > 0
  }

  /** Without traffic there is nothing to flush: every counter is 0. */
  lemma NoTraffic(level: Level, data: Data, c: Counter)
    requires !HasTrafficData(data) && (c.name in data ==> Balanced(level, data[c.name]))
    ensures Read(data, c) == 0
  {
    if c.name in data {
      var r := data[c.name];
      match c
      case OfName(_) =>
      case OfStatus(_, s) =>
        if s in r.status { MapTotalRemove(r.status, s); }
      case OfGroup(_, g) =>
        if g in r.groups { MapTotalRemove(r.GroupCounts(), g); }
      case OfGroupStatus(_, g, s) =>
        if g in r.groups {
          MapTotalRemove(r.GroupCounts(), g);
          if r.groups[g].Detail? && s in r.groups[g].status { MapTotalRemove(r.groups[g].status, s); }
        }
    }
  }
}
