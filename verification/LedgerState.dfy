/** The GPU reservation ledger as a value: its two indexes, the placement order, and the effect of
    each operation. */
module LedgerState {
  import opened Strings

  datatype Profile = Profile(name: string, vramBytes: int, slicesUsed: int)

  datatype GPU = GPU(
    id: string,
    sku: string,
    totalVRAM: int,
    totalSlices: int,
    numaNode: int,
    nvlinkGroup: string,
    tenant: string)

  datatype Reservation = Reservation(
    id: string,
    gpu: string,
    model: string,
    modelVer: string,
    profile: Profile,
    holdFor: int,
    startedAt: int,
    tenantId: string,
    pipelineId: string)

  datatype Request = Request(
    model: string,
    modelVersion: string,
    tenantId: string,
    pipelineId: string,
    profile: Profile,
    preferNVLink: string,
    preferSKU: string,
    holdFor: int)

  type Reservations = map<string, Reservation>

  datatype State = State(gpus: map<string, GPU>, resv: Reservations, byGPU: map<string, Reservations>)

  // ---------- sums over an unordered map ----------

  datatype Usage = Usage(vram: int, slices: int)

  ghost function Total(m: Reservations): Usage {
    if m == map[] then Usage(0, 0)
    else
      var id :| id in m;
      var rest := Total(m - {id});
      Usage(rest.vram + m[id].profile.vramBytes, rest.slices + m[id].profile.slicesUsed)
  }

  /** The sum does not depend on the order in which the map is walked. */
  lemma {:induction false} TotalRemove(m: Reservations, id: string)
    requires id in m
    ensures Total(m).vram == Total(m - {id}).vram + m[id].profile.vramBytes
    ensures Total(m).slices == Total(m - {id}).slices + m[id].profile.slicesUsed
    decreases |m|
  {
    var first :| id in m && first in m && Total(m) ==
      Usage(Total(m - {first}).vram + m[first].profile.vramBytes,
            Total(m - {first}).slices + m[first].profile.slicesUsed);
    if first != id {
      var a, b := m - {first}, m - {id};
      assert a - {id} == b - {first};
      TotalRemove(a, id);
      TotalRemove(b, first);
    }
  }

  lemma TotalAdd(m: Reservations, id: string, r: Reservation)
    requires id !in m
    ensures Total(m[id := r]) == Usage(Total(m).vram + r.profile.vramBytes, Total(m).slices + r.profile.slicesUsed)
  {
    TotalRemove(m[id := r], id);
    assert m[id := r] - {id} == m;
  }

  // ---------- the invariant ----------

  function OnGPU(resv: Reservations, gpu: string): Reservations {
    map id | id in resv && resv[id].gpu == gpu :: resv[id]
  }

  predicate TenantOk(g: GPU, m: Reservations) {
    g.tenant != "" ==> forall id :: id in m ==> m[id].tenantId == g.tenant
  }

  ghost predicate FitsOn(g: GPU, m: Reservations) {
    Total(m).vram <= g.totalVRAM && Total(m).slices <= g.totalSlices && TenantOk(g, m)
  }

  predicate ResvOk(s: State, id: string)
    requires id in s.resv
  {
    var r := s.resv[id];
    r.id == id && r.gpu in s.gpus && r.profile.vramBytes > 0
  }

  /** The per-GPU index holds exactly the GPU's reservations, and they fit. */
  ghost predicate GpuOk(s: State, g: string) {
    && g in s.gpus && s.gpus[g].id == g && g in s.byGPU
    && s.byGPU[g] == OnGPU(s.resv, g)
    && FitsOn(s.gpus[g], s.byGPU[g])
  }

  /** The two indexes agree and no GPU is over-committed or holds another tenant's reservations. */
  ghost predicate Inv(s: State) {
    && s.byGPU.Keys == s.gpus.Keys
    && (forall id :: id in s.resv ==> ResvOk(s, id))
    && (forall g :: g in s.gpus ==> GpuOk(s, g))
  }

  function Empty(): State {
    State(map[], map[], map[])
  }

  // ---------- registering ----------

  function Registered(s: State, g: GPU): State {
    var g' := if g.totalSlices <= 0 then g.(totalSlices := 1) else g;
    s.(gpus := s.gpus[g.id := g'],
       byGPU := if g.id in s.byGPU then s.byGPU else s.byGPU[g.id := map[]])
  }

  lemma RegisterKeepsGpu(s: State, g: GPU, h: string)
    requires Inv(s) && h in s.gpus && h != g.id
    ensures GpuOk(Registered(s, g), h)
  {
    hide FitsOn, OnGPU;
    assert GpuOk(s, h);
  }

  lemma NewIndexEntry(s: State, g: GPU)
    requires Inv(s)
    ensures Registered(s, g).byGPU[g.id] == OnGPU(s.resv, g.id)
  {
    hide FitsOn;
    if g.id in s.gpus {
      assert GpuOk(s, g.id);
    } else {
      assert forall id :: id in s.resv ==> ResvOk(s, id);
      assert OnGPU(s.resv, g.id) == map[];
    }
  }

  /** Re-registering a GPU keeps the ledger sound exactly when what is already reserved on it fits the
      new totals and the new tenant. */
  lemma RegisterKeepsInvIff(s: State, g: GPU)
    requires Inv(s) && g.totalVRAM > 0
    ensures Inv(Registered(s, g)) <==> FitsOn(Registered(s, g).gpus[g.id], OnGPU(s.resv, g.id))
  {
    var s' := Registered(s, g);
    NewIndexEntry(s, g);
    assert GpuOk(s', g.id) <==> FitsOn(s'.gpus[g.id], OnGPU(s.resv, g.id));
    hide GpuOk, FitsOn, OnGPU;
    forall h | h in s'.gpus && h != g.id
      ensures GpuOk(s', h)
    {
      RegisterKeepsGpu(s, g, h);
    }
    forall id | id in s'.resv
      ensures ResvOk(s', id)
    {
      assert ResvOk(s, id);
    }
    assert Inv(s') ==> GpuOk(s', g.id);
  }

  // ---------- placing ----------

  /** The index entry of a GPU; a missing one reads as empty. */
  function Resident(s: State, gpu: string): Reservations {
    if gpu in s.byGPU then s.byGPU[gpu] else map[]
  }

  ghost function FreeVRAM(s: State, g: GPU): int {
    g.totalVRAM - Total(Resident(s, g.id)).vram
  }

  ghost predicate Eligible(s: State, req: Request, g: GPU) {
    && (g.tenant == "" || g.tenant == req.tenantId)
    && (req.preferSKU == "" || g.sku == req.preferSKU)
    && FreeVRAM(s, g) >= req.profile.vramBytes
    && g.totalSlices - Total(Resident(s, g.id)).slices >= req.profile.slicesUsed
  }

  datatype Cand = Cand(gpu: GPU, freeVRAM: int)

  /** The comparator of the sort: NVLink match when asked for, then tighter fit, then smaller id. */
  predicate Before(req: Request, a: Cand, b: Cand) {
    var ai := a.gpu.nvlinkGroup == req.preferNVLink;
    var bi := b.gpu.nvlinkGroup == req.preferNVLink;
    if req.preferNVLink != "" && ai != bi then ai
    else if a.freeVRAM != b.freeVRAM then a.freeVRAM < b.freeVRAM
    else Less(a.gpu.id, b.gpu.id)
  }

  ghost function CandOf(s: State, g: GPU): Cand {
    Cand(g, FreeVRAM(s, g))
  }

  /** The eligible GPU that comes before every other eligible one. */
  ghost predicate IsBest(s: State, req: Request, id: string) {
    && id in s.gpus && Eligible(s, req, s.gpus[id])
    && forall other :: other in s.gpus && other != id && Eligible(s, req, s.gpus[other])
         ==> Before(req, CandOf(s, s.gpus[id]), CandOf(s, s.gpus[other]))
  }

  lemma BeforeAsymmetric(req: Request, a: Cand, b: Cand)
    requires Before(req, a, b)
    ensures !Before(req, b, a)
  {
    if Less(a.gpu.id, b.gpu.id) && Less(b.gpu.id, a.gpu.id) {
      LessTransitive(a.gpu.id, b.gpu.id, a.gpu.id);
      LessIrreflexive(a.gpu.id);
    }
  }

  lemma BeforeTransitive(req: Request, a: Cand, b: Cand, c: Cand)
    requires Before(req, a, b) && Before(req, b, c)
    ensures Before(req, a, c)
  {
    if Less(a.gpu.id, b.gpu.id) && Less(b.gpu.id, c.gpu.id) {
      LessTransitive(a.gpu.id, b.gpu.id, c.gpu.id);
    }
  }

  lemma BeforeTotal(req: Request, a: Cand, b: Cand)
    requires a.gpu.id != b.gpu.id
    ensures Before(req, a, b) || Before(req, b, a)
  {
    LessTotal(a.gpu.id, b.gpu.id);
  }

  lemma BestUnique(s: State, req: Request, a: string, b: string)
    requires IsBest(s, req, a) && IsBest(s, req, b)
    ensures a == b
  {
    if a != b {
      BeforeAsymmetric(req, CandOf(s, s.gpus[a]), CandOf(s, s.gpus[b]));
    }
  }

  ghost predicate WantedGroup(req: Request, g: GPU) {
    g.nvlinkGroup == req.preferNVLink
  }

  ghost predicate Candidate(s: State, req: Request, id: string) {
    id in s.gpus && Eligible(s, req, s.gpus[id])
  }

  /** A candidate has the wanted NVLink group if one is wanted and any candidate has it. */
  ghost predicate PrefersGroup(s: State, req: Request, id: string)
    requires id in s.gpus
  {
    req.preferNVLink != "" && (exists c :: Candidate(s, req, c) && WantedGroup(req, s.gpus[c]))
    ==> WantedGroup(req, s.gpus[id])
  }

  /** Of the candidates that agree on the wanted group (of all, if none is wanted) it has the least free
      memory, and the smallest id of those with as little. */
  ghost predicate FitsTightest(s: State, req: Request, id: string)
    requires id in s.gpus
  {
    forall c :: Candidate(s, req, c) && SameMatch(req, s.gpus[c], s.gpus[id]) ==>
      && FreeVRAM(s, s.gpus[id]) <= FreeVRAM(s, s.gpus[c])
      && (FreeVRAM(s, s.gpus[id]) == FreeVRAM(s, s.gpus[c]) && c != id ==> Less(id, c))
  }

  ghost predicate SameMatch(req: Request, g: GPU, h: GPU) {
    req.preferNVLink == "" || (WantedGroup(req, g) <==> WantedGroup(req, h))
  }

  /** The chosen GPU in terms of groups, free memory and ids alone. */
  lemma BestIff(s: State, req: Request, id: string)
    requires Inv(s)
    ensures IsBest(s, req, id) <==> Candidate(s, req, id) && PrefersGroup(s, req, id) && FitsTightest(s, req, id)
  {
    hide Eligible, FreeVRAM, FitsOn, Less;
    assert forall g :: g in s.gpus ==> GpuOk(s, g) && s.gpus[g].id == g;
    if IsBest(s, req, id) {
      if c :| Candidate(s, req, c) && WantedGroup(req, s.gpus[c]) && c != id {
        assert Before(req, CandOf(s, s.gpus[id]), CandOf(s, s.gpus[c]));
      }
      forall c | Candidate(s, req, c) && c != id
        ensures Before(req, CandOf(s, s.gpus[id]), CandOf(s, s.gpus[c]))
      {
      }
    }
    if Candidate(s, req, id) && PrefersGroup(s, req, id) && FitsTightest(s, req, id) {
      forall c | Candidate(s, req, c) && c != id
        ensures Before(req, CandOf(s, s.gpus[id]), CandOf(s, s.gpus[c]))
      {
      }
    }
  }

  /** Which GPUs can take a request, from the reservation table: the tenant and the SKU agree, and memory
      and slices suffice for the request on top of what the table puts there. */
  lemma EligibleIff(s: State, req: Request, id: string)
    requires Inv(s) && id in s.gpus
    ensures var g, used := s.gpus[id], Total(OnGPU(s.resv, id));
            Eligible(s, req, g) <==>
              && (g.tenant != "" ==> g.tenant == req.tenantId)
              && (req.preferSKU != "" ==> g.sku == req.preferSKU)
              && used.vram + req.profile.vramBytes <= g.totalVRAM
              && used.slices + req.profile.slicesUsed <= g.totalSlices
  {
    assert GpuOk(s, id);
    hide OnGPU, Total;
  }

  function NewReservation(req: Request, gpu: string, id: string, now: int): Reservation {
    Reservation(id, gpu, req.model, req.modelVersion, req.profile, req.holdFor, now, req.tenantId, req.pipelineId)
  }

  function Placed(s: State, r: Reservation): State {
    s.(resv := s.resv[r.id := r], byGPU := s.byGPU[r.gpu := Resident(s, r.gpu)[r.id := r]])
  }

  predicate ValidRequest(req: Request) {
    req.model != "" && req.profile.vramBytes > 0
  }

  lemma OnGPUAfterPlace(resv: Reservations, r: Reservation, gpu: string)
    requires r.id !in resv
    ensures OnGPU(resv[r.id := r], gpu) == if gpu == r.gpu then OnGPU(resv, gpu)[r.id := r] else OnGPU(resv, gpu)
  {
  }

  lemma OnGPUAfterRelease(resv: Reservations, id: string, gpu: string)
    requires id in resv
    ensures OnGPU(resv - {id}, gpu) == OnGPU(resv, gpu) - {id}
    ensures id in OnGPU(resv, gpu) <==> resv[id].gpu == gpu
  {
  }

  lemma FitsAfterPlace(g: GPU, m: Reservations, r: Reservation)
    requires FitsOn(g, m) && r.id !in m && (g.tenant == "" || g.tenant == r.tenantId)
    requires Total(m).vram + r.profile.vramBytes <= g.totalVRAM
    requires Total(m).slices + r.profile.slicesUsed <= g.totalSlices
    ensures FitsOn(g, m[r.id := r])
  {
    TotalAdd(m, r.id, r);
  }

  lemma OnGPUAfterReuse(resv: Reservations, r: Reservation, gpu: string)
    requires r.id in resv && resv[r.id].gpu == r.gpu
    ensures OnGPU(resv[r.id := r], gpu) == if gpu == r.gpu then OnGPU(resv, gpu)[r.id := r] else OnGPU(resv, gpu)
    ensures r.id in OnGPU(resv, r.gpu) && OnGPU(resv, r.gpu)[r.id] == resv[r.id]
  {
  }

  /** Replacing a reservation of the same id takes what the new one takes and gives back the old one's. */
  lemma FitsAfterReuseIff(g: GPU, m: Reservations, r: Reservation)
    requires FitsOn(g, m) && r.id in m && (g.tenant == "" || g.tenant == r.tenantId)
    requires m[r.id].profile.vramBytes > 0 && Total(m).vram + r.profile.vramBytes <= g.totalVRAM
    ensures FitsOn(g, m[r.id := r])
            <==> Total(m).slices - m[r.id].profile.slicesUsed + r.profile.slicesUsed <= g.totalSlices
  {
    TotalRemove(m, r.id);
    TotalAdd(m - {r.id}, r.id, r);
    assert (m - {r.id})[r.id := r] == m[r.id := r];
  }

  /** The reservation's id is unused, or used on the same GPU, which has the slices for the new
      reservation once it has the old one's back. */
  ghost predicate IdFits(s: State, r: Reservation) {
    r.id in s.resv ==>
      && s.resv[r.id].gpu == r.gpu && r.gpu in s.gpus
      && Total(Resident(s, r.gpu)).slices - s.resv[r.id].profile.slicesUsed + r.profile.slicesUsed
         <= s.gpus[r.gpu].totalSlices
  }

  lemma PlaceKeepsGpu(s: State, req: Request, gpu: string, id: string, now: int, g: string)
    requires Inv(s) && gpu in s.gpus && Eligible(s, req, s.gpus[gpu]) && g in s.gpus
    requires IdFits(s, NewReservation(req, gpu, id, now))
    ensures GpuOk(Placed(s, NewReservation(req, gpu, id, now)), g)
  {
    var r := NewReservation(req, gpu, id, now);
    assert GpuOk(s, g);
    if id in s.resv {
      assert ResvOk(s, id);
      OnGPUAfterReuse(s.resv, r, g);
      if g == gpu {
        FitsAfterReuseIff(s.gpus[gpu], s.byGPU[gpu], r);
      }
    } else {
      OnGPUAfterPlace(s.resv, r, g);
      if g == gpu {
        FitsAfterPlace(s.gpus[gpu], s.byGPU[gpu], r);
      }
    }
  }

  /** A placement on an eligible GPU keeps the ledger sound if its id fits; a fresh id always does,
      whatever the sign of the slice count. */
  lemma PlaceKeepsInv(s: State, req: Request, gpu: string, id: string, now: int)
    requires Inv(s) && ValidRequest(req) && gpu in s.gpus && Eligible(s, req, s.gpus[gpu])
    requires IdFits(s, NewReservation(req, gpu, id, now))
    ensures Inv(Placed(s, NewReservation(req, gpu, id, now)))
  {
    hide GpuOk;
    var s' := Placed(s, NewReservation(req, gpu, id, now));
    forall g | g in s'.gpus
      ensures GpuOk(s', g)
    {
      PlaceKeepsGpu(s, req, gpu, id, now, g);
    }
    forall other | other in s'.resv
      ensures ResvOk(s', other)
    {
      assert other != id ==> ResvOk(s, other);
    }
  }

  /** Under an id that another GPU holds, that GPU's index keeps an entry the reservation table has lost. */
  lemma ClaimedIdBreaks(s: State, r: Reservation)
    requires Inv(s) && r.gpu in s.gpus && r.id in s.resv && s.resv[r.id].gpu != r.gpu
    ensures !Inv(Placed(s, r))
  {
    var other, s' := s.resv[r.id].gpu, Placed(s, r);
    hide FitsOn;
    assert ResvOk(s, r.id) && GpuOk(s, other);
    assert r.id in s.byGPU[other];
    assert s'.byGPU[other] == s.byGPU[other] && r.id !in OnGPU(s'.resv, other);
    assert !GpuOk(s', other);
  }

  lemma ReuseOverCommits(s: State, req: Request, gpu: string, id: string, now: int)
    requires Inv(s) && gpu in s.gpus && Eligible(s, req, s.gpus[gpu]) && id in s.resv && s.resv[id].gpu == gpu
    requires !IdFits(s, NewReservation(req, gpu, id, now))
    ensures !Inv(Placed(s, NewReservation(req, gpu, id, now)))
  {
    var r := NewReservation(req, gpu, id, now);
    assert GpuOk(s, gpu) && ResvOk(s, id);
    OnGPUAfterReuse(s.resv, r, gpu);
    FitsAfterReuseIff(s.gpus[gpu], s.byGPU[gpu], r);
    assert !GpuOk(Placed(s, r), gpu);
  }

  /** The code does not check that a new id is unused: a placement on an eligible GPU keeps the ledger
      sound exactly when its id fits. */
  lemma PlaceKeepsInvIff(s: State, req: Request, gpu: string, id: string, now: int)
    requires Inv(s) && ValidRequest(req) && gpu in s.gpus && Eligible(s, req, s.gpus[gpu])
    ensures Inv(Placed(s, NewReservation(req, gpu, id, now))) <==> IdFits(s, NewReservation(req, gpu, id, now))
  {
    var r := NewReservation(req, gpu, id, now);
    hide Inv, Eligible;
    if IdFits(s, r) {
      PlaceKeepsInv(s, req, gpu, id, now);
    } else if s.resv[id].gpu == gpu {
      ReuseOverCommits(s, req, gpu, id, now);
    } else {
      ClaimedIdBreaks(s, r);
    }
  }

  // ---------- releasing ----------

  function Released(s: State, id: string): State {
    if id !in s.resv then s
    else
      var gpu := s.resv[id].gpu;
      s.(resv := s.resv - {id},
         byGPU := if gpu in s.byGPU then s.byGPU[gpu := s.byGPU[gpu] - {id}] else s.byGPU)
  }

  lemma FitsAfterReleaseIff(g: GPU, m: Reservations, id: string)
    requires FitsOn(g, m) && id in m && m[id].profile.vramBytes > 0
    ensures FitsOn(g, m - {id}) <==> Total(m).slices - m[id].profile.slicesUsed <= g.totalSlices
  {
    TotalRemove(m, id);
  }

  /** The reservation's GPU has the slices for what else is on it. */
  ghost predicate ReleaseFits(s: State, id: string) {
    id in s.resv && s.resv[id].gpu in s.gpus ==>
      var g := s.resv[id].gpu;
      Total(Resident(s, g)).slices - s.resv[id].profile.slicesUsed <= s.gpus[g].totalSlices
  }

  lemma ReleaseKeepsGpuIff(s: State, id: string, g: string)
    requires id in s.resv && ResvOk(s, id) && s.resv[id].gpu in s.byGPU && GpuOk(s, g)
    ensures GpuOk(Released(s, id), g) <==> (g == s.resv[id].gpu ==> ReleaseFits(s, id))
  {
    OnGPUAfterRelease(s.resv, id, g);
    hide FitsOn, Total, OnGPU;
    if g == s.resv[id].gpu {
      FitsAfterReleaseIff(s.gpus[g], s.byGPU[g], id);
    }
  }

  /** Releasing keeps the ledger sound exactly when the other reservations on the GPU fit without the
      released one. They do unless it has a negative slice count. */
  lemma ReleaseKeepsInvIff(s: State, id: string)
    requires Inv(s)
    ensures Inv(Released(s, id)) <==> ReleaseFits(s, id)
    ensures id in s.resv && s.resv[id].profile.slicesUsed >= 0 ==> ReleaseFits(s, id)
  {
    if id in s.resv {
      var s' := Released(s, id);
      assert ResvOk(s, id) && GpuOk(s, s.resv[id].gpu);
      hide GpuOk, ReleaseFits;
      forall g | g in s'.gpus
        ensures GpuOk(s', g) <==> (g == s.resv[id].gpu ==> ReleaseFits(s, id))
      {
        ReleaseKeepsGpuIff(s, id, g);
      }
      forall other | other in s'.resv
        ensures ResvOk(s', other)
      {
        assert ResvOk(s, other);
      }
    }
  }

  /** Releasing a reservation with a slice count that is not negative, or an unknown id, is always sound. */
  lemma ReleaseKeepsInv(s: State, id: string)
    requires Inv(s) && (id in s.resv ==> s.resv[id].profile.slicesUsed >= 0)
    ensures Inv(Released(s, id))
  {
    ReleaseKeepsInvIff(s, id);
  }

  // ---------- negative slice counts ----------

  /** The reservations with negative slice counts counted as zero. */
  function Clipped(m: Reservations): Reservations {
    map id | id in m ::
      if m[id].profile.slicesUsed < 0 then m[id].(profile := m[id].profile.(slicesUsed := 0)) else m[id]
  }

  /** The sum of the slice counts that are not negative. */
  ghost function PositiveSlices(m: Reservations): int {
    Total(Clipped(m)).slices
  }

  lemma PositiveRemove(m: Reservations, id: string)
    requires id in m
    ensures var n := m[id].profile.slicesUsed;
            PositiveSlices(m) == PositiveSlices(m - {id}) + if n < 0 then 0 else n
  {
    TotalRemove(Clipped(m), id);
    assert Clipped(m) - {id} == Clipped(m - {id});
  }

  lemma NothingTaken(m: Reservations)
    requires m == map[]
    ensures Total(m).slices == PositiveSlices(m) == 0
  {
    assert Clipped(m) == map[];
  }

  /** The positive counts sum to at least the total, and to the total when there are no negative ones. */
  lemma {:induction false} PositiveAtLeastTotal(m: Reservations)
    ensures Total(m).slices <= PositiveSlices(m)
    ensures (forall id :: id in m ==> m[id].profile.slicesUsed >= 0) ==> Total(m).slices == PositiveSlices(m)
    decreases |m|
  {
    hide Total, PositiveSlices;
    if m == map[] {
      NothingTaken(m);
    } else {
      var id :| id in m;
      TotalRemove(m, id);
      PositiveRemove(m, id);
      PositiveAtLeastTotal(m - {id});
    }
  }

  lemma {:induction false} PositiveShrinks(m: Reservations, rs: set<string>)
    ensures PositiveSlices(m - rs) <= PositiveSlices(m)
    decreases |m|
  {
    hide PositiveSlices;
    if id :| id in m && id in rs {
      PositiveRemove(m, id);
      PositiveShrinks(m - {id}, rs);
      assert m - {id} - rs == m - rs;
    } else {
      assert m - rs == m;
    }
  }

  /** Some releases leave exactly the positive counts. */
  lemma {:induction false} PositiveIsReached(m: Reservations) returns (rs: set<string>)
    ensures Total(m - rs).slices == PositiveSlices(m)
    decreases |m|
  {
    hide Total, PositiveSlices;
    if id :| id in m && m[id].profile.slicesUsed < 0 {
      rs := PositiveIsReached(m - {id});
      PositiveRemove(m, id);
      assert m - {id} - rs == m - (rs + {id});
      rs := rs + {id};
    } else {
      rs := {};
      PositiveAtLeastTotal(m);
      assert m - rs == m;
    }
  }

  /** Whatever is released later, the rest fits in `n` slices exactly when the positive counts do. */
  lemma AnyReleasesFitIff(m: Reservations, n: int)
    ensures (forall rs: set<string> :: Total(m - rs).slices <= n) <==> PositiveSlices(m) <= n
  {
    hide Total, PositiveSlices;
    if PositiveSlices(m) <= n {
      forall rs: set<string>
        ensures Total(m - rs).slices <= n
      {
        PositiveAtLeastTotal(m - rs);
        PositiveShrinks(m, rs);
      }
    } else {
      var rs := PositiveIsReached(m);
    }
  }

  function ReleasedAll(s: State, ids: seq<string>): State
    decreases |ids|
  {
    if ids == [] then s else ReleasedAll(Released(s, ids[0]), ids[1..])
  }

  /** Every GPU has the slices for the positive counts on it. */
  ghost predicate HoldsPositive(s: State) {
    forall g :: g in s.gpus ==> PositiveSlices(Resident(s, g)) <= s.gpus[g].totalSlices
  }

  lemma ReleaseHoldsPositive(s: State, id: string)
    requires Inv(s) && HoldsPositive(s)
    ensures Inv(Released(s, id)) && HoldsPositive(Released(s, id))
  {
    hide Total, PositiveSlices, FitsOn;
    ReleaseKeepsInvIff(s, id);
    if id in s.resv {
      var gpu := s.resv[id].gpu;
      assert ResvOk(s, id) && GpuOk(s, gpu);
      assert id in s.byGPU[gpu] && s.byGPU[gpu][id] == s.resv[id];
      TotalRemove(s.byGPU[gpu], id);
      PositiveRemove(s.byGPU[gpu], id);
      PositiveAtLeastTotal(s.byGPU[gpu] - {id});
    }
  }

  lemma {:induction false} ReleasesStaySound(s: State, ids: seq<string>)
    requires Inv(s) && HoldsPositive(s)
    ensures Inv(ReleasedAll(s, ids))
    decreases |ids|
  {
    hide Inv, HoldsPositive, Released;
    if ids != [] {
      ReleaseHoldsPositive(s, ids[0]);
      ReleasesStaySound(Released(s, ids[0]), ids[1..]);
    }
  }

  /** On a GPU whose positive counts do not fit, releasing negative ones ends in an over-commitment. */
  lemma {:induction false} BreakingReleases(s: State, g: string) returns (ids: seq<string>)
    requires Inv(s) && g in s.gpus && PositiveSlices(Resident(s, g)) > s.gpus[g].totalSlices
    ensures !Inv(ReleasedAll(s, ids))
    decreases |Resident(s, g)|
  {
    hide Total, PositiveSlices, FitsOn;
    var m := Resident(s, g);
    assert GpuOk(s, g) && m == s.byGPU[g];
    TotalFits(s, g);
    PositiveAtLeastTotal(m);
    var id :| id in m && m[id].profile.slicesUsed < 0;
    var s' := Released(s, id);
    assert s.resv[id].gpu == g && Resident(s', g) == m - {id};
    assert |m - {id}| < |m|;
    PositiveRemove(m, id);
    if Inv(s') {
      ids := BreakingReleases(s', g);
    } else {
      ids := [];
    }
    assert ([id] + ids)[1..] == ids;
    ids := [id] + ids;
  }

  lemma TotalFits(s: State, g: string)
    requires GpuOk(s, g)
    ensures Total(s.byGPU[g]).slices <= s.gpus[g].totalSlices
  {
  }

  /** The code does not check the sign of slice counts. A sound ledger stays sound under all later
      releases exactly when every GPU has the slices for the positive counts on it. */
  lemma SurvivesReleasesIff(s: State)
    requires Inv(s)
    ensures (forall ids: seq<string> :: Inv(ReleasedAll(s, ids))) <==> HoldsPositive(s)
  {
    hide Inv, PositiveSlices;
    if HoldsPositive(s) {
      forall ids: seq<string>
        ensures Inv(ReleasedAll(s, ids))
      {
        ReleasesStaySound(s, ids);
      }
    } else {
      var g :| g in s.gpus && PositiveSlices(Resident(s, g)) > s.gpus[g].totalSlices;
      var ids := BreakingReleases(s, g);
    }
  }

  lemma AddThenRemove<K, V>(m: map<K, V>, k: K, v: V)
    requires k !in m
    ensures m[k := v] - {k} == m
  {
  }

  /** Releasing a placement restores the ledger it was made in. */
  lemma PlaceThenRelease(s: State, r: Reservation)
    requires Inv(s) && r.gpu in s.gpus && r.id !in s.resv
    ensures Released(Placed(s, r), r.id) == s
  {
    assert GpuOk(s, r.gpu);
    assert r.id !in s.byGPU[r.gpu];
    AddThenRemove(s.resv, r.id, r);
    AddThenRemove(s.byGPU[r.gpu], r.id, r);
    hide Inv, GpuOk;
    var s' := Released(Placed(s, r), r.id);
    assert s'.byGPU == s.byGPU;
  }

  // ---------- runs ----------

  /** An operation of a run; a placement carries the id and time it would get. */
  datatype Op = Register(g: GPU) | Place(req: Request, id: string, now: int) | Release(rid: string)

  ghost predicate SomeEligible(s: State, req: Request) {
    exists g :: g in s.gpus && Eligible(s, req, s.gpus[g])
  }

  /** What a run may contain: a GPU is re-registered only with room for what is reserved on it, and
      reservation ids are fresh. */
  ghost predicate Admissible(s: State, op: Op) {
    match op
    case Register(g) => g.totalVRAM > 0 ==> FitsOn(Registered(s, g).gpus[g.id], OnGPU(s.resv, g.id))
    case Place(_, id, _) => id !in s.resv
    case Release(_) => true
  }

  ghost predicate Step(s: State, op: Op, s': State) {
    match op
    case Register(g) => s' == if g.id == "" || g.totalVRAM <= 0 then s else Registered(s, g)
    case Place(req, id, now) =>
      if ValidRequest(req) && SomeEligible(s, req)
      then exists gpu :: IsBest(s, req, gpu) && s' == Placed(s, NewReservation(req, gpu, id, now))
      else s' == s
    case Release(id) => s' == Released(s, id)
  }

  /** A step keeps the ledger sound exactly when what it releases leaves the rest fitting. */
  lemma StepKeepsInvIff(s: State, op: Op, s': State)
    requires Inv(s) && Admissible(s, op) && Step(s, op, s')
    ensures Inv(s') <==> (op.Release? ==> ReleaseFits(s, op.rid))
  {
    match op
    case Register(g) =>
      if g.totalVRAM > 0 { RegisterKeepsInvIff(s, g); }
    case Place(req, id, now) =>
      if ValidRequest(req) && SomeEligible(s, req) {
        var gpu :| IsBest(s, req, gpu) && s' == Placed(s, NewReservation(req, gpu, id, now));
        PlaceKeepsInv(s, req, gpu, id, now);
      }
    case Release(id) => ReleaseKeepsInvIff(s, id);
  }

  /** A run: the states it goes through, from the empty ledger. */
  ghost predicate IsRun(states: seq<State>, ops: seq<Op>) {
    && |states| == |ops| + 1
    && states[0] == Empty()
    && forall k :: 0 <= k < |ops| ==> Admissible(states[k], ops[k]) && Step(states[k], ops[k], states[k + 1])
  }

  ghost predicate ReleasesFit(states: seq<State>, ops: seq<Op>)
    requires |states| == |ops| + 1
  {
    forall k :: 0 <= k < |ops| && ops[k].Release? ==> ReleaseFits(states[k], ops[k].rid)
  }

  lemma RunStep(states: seq<State>, ops: seq<Op>, k: nat)
    requires IsRun(states, ops) && k < |ops| && Inv(states[k])
    ensures Inv(states[k + 1]) <==> (ops[k].Release? ==> ReleaseFits(states[k], ops[k].rid))
  {
    assert Step(states[k], ops[k], states[k + 1]);
    StepKeepsInvIff(states[k], ops[k], states[k + 1]);
  }

  /** The states up to `k` are sound when the releases of the run fit. */
  lemma {:induction false} FittingRunIsSound(states: seq<State>, ops: seq<Op>, k: nat)
    requires IsRun(states, ops) && k <= |ops| && ReleasesFit(states, ops)
    ensures Inv(states[k])
  {
    hide Inv, ReleaseFits, IsRun;
    if k > 0 {
      FittingRunIsSound(states, ops, k - 1);
      RunStep(states, ops, k - 1);
    } else {
      EmptyIsSound(states, ops);
    }
  }

  lemma EmptyIsSound(states: seq<State>, ops: seq<Op>)
    requires IsRun(states, ops)
    ensures Inv(states[0])
  {
  }

  /** With slice counts of any sign, a run is sound throughout exactly when each of its releases leaves
      the rest fitting. */
  lemma RunIsSoundIff(states: seq<State>, ops: seq<Op>)
    requires IsRun(states, ops)
    ensures (forall k :: 0 <= k < |states| ==> Inv(states[k])) <==> ReleasesFit(states, ops)
  {
    hide Inv, ReleaseFits;
    if ReleasesFit(states, ops) {
      forall k | 0 <= k < |states|
        ensures Inv(states[k])
      {
        FittingRunIsSound(states, ops, k);
      }
    } else {
      var k :| 0 <= k < |ops| && ops[k].Release? && !ReleaseFits(states[k], ops[k].rid);
      if Inv(states[k]) {
        RunStep(states, ops, k);
        assert !Inv(states[k + 1]);
      }
    }
  }

  /** No placement of the run asks for a negative number of slices. */
  predicate NonNegativeOps(ops: seq<Op>) {
    forall k :: 0 <= k < |ops| && ops[k].Place? ==> ops[k].req.profile.slicesUsed >= 0
  }

  predicate NonNegativeSlices(s: State) {
    forall id :: id in s.resv ==> s.resv[id].profile.slicesUsed >= 0
  }

  lemma StepKeepsSigns(s: State, op: Op, s': State)
    requires NonNegativeSlices(s) && Step(s, op, s')
    requires op.Place? ==> op.req.profile.slicesUsed >= 0
    ensures NonNegativeSlices(s')
  {
    hide IsBest, SomeEligible;
  }

  /** In every state of every run without negative slice counts the indexes agree and no GPU is
      over-committed or shared across a tenant lock. */
  lemma {:induction false} EveryRunIsSound(states: seq<State>, ops: seq<Op>, k: nat)
    requires IsRun(states, ops) && NonNegativeOps(ops) && k <= |ops|
    ensures Inv(states[k]) && NonNegativeSlices(states[k])
  {
    hide Inv, Step, Admissible;
    if k > 0 {
      EveryRunIsSound(states, ops, k - 1);
      assert Step(states[k - 1], ops[k - 1], states[k - 1 + 1]);
      StepKeepsSigns(states[k - 1], ops[k - 1], states[k]);
      RunStep(states, ops, k - 1);
      if ops[k - 1].Release? {
        ReleaseKeepsInvIff(states[k - 1], ops[k - 1].rid);
      }
    } else {
      EmptyIsSound(states, ops);
    }
  }

  // A GPU of one slice, and the states after placing -1 and then 2 slices on it and releasing the first.

  const ONE_SLICE := GPU("g", "L4", 48, 1, 0, "", "")
  const MINUS_ONE := Request("m", "1", "t", "p", Profile("none", 1, -1), "", "", 0)
  const TWO := Request("m", "1", "t", "p", Profile("two", 1, 2), "", "", 0)

  function AfterRegister(): State {
    Registered(Empty(), ONE_SLICE)
  }

  function AfterFirst(): State {
    Placed(AfterRegister(), NewReservation(MINUS_ONE, "g", "a", 0))
  }

  function AfterSecond(): State {
    Placed(AfterFirst(), NewReservation(TWO, "g", "b", 0))
  }

  /** On the only GPU a request that fits is placed. */
  lemma OnlyGpuStep(s: State, g: GPU, req: Request, id: string)
    requires s.gpus == map[g.id := g] && Inv(s) && ValidRequest(req) && Eligible(s, req, g) && id !in s.resv
    ensures var s' := Placed(s, NewReservation(req, g.id, id, 0));
            Admissible(s, Place(req, id, 0)) && Step(s, Place(req, id, 0), s') && Inv(s')
  {
    assert IsBest(s, req, g.id);
    PlaceKeepsInvIff(s, req, g.id, id, 0);
  }

  lemma RegisterStep()
    ensures Inv(AfterRegister()) && Resident(AfterRegister(), "g") == map[] && AfterRegister().resv == map[]
    ensures AfterRegister().gpus == map["g" := ONE_SLICE]
    ensures Admissible(Empty(), Register(ONE_SLICE)) && Step(Empty(), Register(ONE_SLICE), AfterRegister())
  {
    assert Inv(Empty());
    assert OnGPU(Empty().resv, "g") == map[];
    RegisterKeepsInvIff(Empty(), ONE_SLICE);
  }

  lemma FirstStep()
    ensures Inv(AfterFirst()) && Resident(AfterFirst(), "g") == map["a" := NewReservation(MINUS_ONE, "g", "a", 0)]
    ensures AfterFirst().gpus == map["g" := ONE_SLICE] && AfterFirst().resv.Keys == {"a"}
    ensures Admissible(AfterRegister(), Place(MINUS_ONE, "a", 0))
    ensures Step(AfterRegister(), Place(MINUS_ONE, "a", 0), AfterFirst())
  {
    RegisterStep();
    assert Total(map[]) == Usage(0, 0);
    hide Inv, Step, Admissible, AfterRegister;
    OnlyGpuStep(AfterRegister(), ONE_SLICE, MINUS_ONE, "a");
  }

  lemma SecondStep()
    ensures Inv(AfterSecond()) && AfterSecond().gpus == map["g" := ONE_SLICE]
    ensures "a" in AfterSecond().resv && AfterSecond().resv["a"].gpu == "g"
    ensures Resident(AfterSecond(), "g")
            == map["a" := NewReservation(MINUS_ONE, "g", "a", 0), "b" := NewReservation(TWO, "g", "b", 0)]
    ensures Admissible(AfterFirst(), Place(TWO, "b", 0)) && Step(AfterFirst(), Place(TWO, "b", 0), AfterSecond())
  {
    FirstStep();
    TotalAdd(map[], "a", NewReservation(MINUS_ONE, "g", "a", 0));
    assert Total(map[]) == Usage(0, 0);
    hide Total, Inv, Step, Admissible;
    OnlyGpuStep(AfterFirst(), ONE_SLICE, TWO, "b");
    assert AfterFirst().resv["a"].gpu == "g";
  }

  lemma LastStep()
    ensures var s := Released(AfterSecond(), "a");
            && s.gpus == map["g" := ONE_SLICE] && Total(Resident(s, "g")).slices == 2 && !Inv(s)
            && Admissible(AfterSecond(), Release("a")) && Step(AfterSecond(), Release("a"), s)
  {
    hide *;
    SecondStep();
    TwoRemain(AfterSecond());
    OverCommitted(Released(AfterSecond(), "a"), "g");
  }

  lemma TwoRemain(s: State)
    requires Inv(s) && s.gpus == map["g" := ONE_SLICE] && "a" in s.resv && s.resv["a"].gpu == "g"
    requires Resident(s, "g")
             == map["a" := NewReservation(MINUS_ONE, "g", "a", 0), "b" := NewReservation(TWO, "g", "b", 0)]
    ensures var s' := Released(s, "a");
            && s'.gpus == map["g" := ONE_SLICE] && Total(Resident(s', "g")).slices == 2 && 2 > ONE_SLICE.totalSlices
            && Admissible(s, Release("a")) && Step(s, Release("a"), s')
  {
    var b := NewReservation(TWO, "g", "b", 0);
    TotalAdd(map[], "b", b);
    assert Total(map[]) == Usage(0, 0);
    hide Total, GpuOk, ResvOk;
    assert Resident(s, "g") - {"a"} == map["b" := b];
  }

  lemma RunOfFour(s: seq<State>, ops: seq<Op>)
    requires |s| == 5 && |ops| == 4 && s[0] == Empty()
    requires Admissible(s[0], ops[0]) && Step(s[0], ops[0], s[1])
    requires Admissible(s[1], ops[1]) && Step(s[1], ops[1], s[2])
    requires Admissible(s[2], ops[2]) && Step(s[2], ops[2], s[3])
    requires Admissible(s[3], ops[3]) && Step(s[3], ops[3], s[4])
    ensures IsRun(s, ops)
  {
    hide Admissible, Step;
    forall k | 0 <= k < 4
      ensures Admissible(s[k], ops[k]) && Step(s[k], ops[k], s[k + 1])
    {
      assert k == 0 || k == 1 || k == 2 || k == 3;
    }
  }

  /** A run of accepted operations in which releasing a negative reservation over-commits its GPU: two
      slices are reserved on a GPU of one. */
  lemma NegativeSlicesOverCommit() returns (states: seq<State>, ops: seq<Op>)
    ensures IsRun(states, ops) && |ops| == 4 && Inv(states[3]) && !Inv(states[4])
    ensures states[4].gpus == map["g" := ONE_SLICE] && Total(Resident(states[4], "g")).slices == 2
  {
    hide *;
    states := [Empty(), AfterRegister(), AfterFirst(), AfterSecond(), Released(AfterSecond(), "a")];
    ops := [Register(ONE_SLICE), Place(MINUS_ONE, "a", 0), Place(TWO, "b", 0), Release("a")];
    RegisterStep();
    FirstStep();
    SecondStep();
    LastStep();
    RunOfFour(states, ops);
  }

  lemma OverCommitted(s: State, g: string)
    requires g in s.gpus && Total(Resident(s, g)).slices > s.gpus[g].totalSlices
    ensures !Inv(s)
  {
    if GpuOk(s, g) {
      TotalFits(s, g);
      assert false;
    }
  }

  // ---------- tenant locks and the placement order ----------

  ghost predicate LockedEligible(s: State, req: Request, g: string) {
    g in s.gpus && s.gpus[g].tenant != "" && Eligible(s, req, s.gpus[g])
  }

  /** An eligible shared GPU that precedes every eligible GPU locked to the requesting tenant. */
  ghost predicate SharedOvertakes(s: State, req: Request, g: string) {
    && g in s.gpus && s.gpus[g].tenant == "" && Eligible(s, req, s.gpus[g])
    && forall l :: LockedEligible(s, req, l) ==> Before(req, CandOf(s, s.gpus[g]), CandOf(s, s.gpus[l]))
  }

  ghost predicate SomeLocked(s: State, req: Request) {
    exists l :: LockedEligible(s, req, l)
  }

  /** The order documented for placements puts tenant-locked GPUs first: if the requesting tenant has
      an eligible one, the chosen GPU should be locked. That holds exactly unless some shared GPU fits
      more tightly (or has the wanted NVLink group, or ties with a smaller id) than all of those. */
  lemma LockedChosenIff(s: State, req: Request, best: string)
    requires Inv(s) && IsBest(s, req, best)
    ensures (SomeLocked(s, req) ==> s.gpus[best].tenant != "")
            <==> !(SomeLocked(s, req) && exists g :: SharedOvertakes(s, req, g))
  {
    assert GpuOk(s, best);
    if s.gpus[best].tenant == "" {
      assert SharedOvertakes(s, req, best);
    } else if g :| SharedOvertakes(s, req, g) {
      assert LockedEligible(s, req, best);
      BeforeAsymmetric(req, CandOf(s, s.gpus[g]), CandOf(s, s.gpus[best]));
    }
  }

  /** A ledger and a request for which a shared GPU is chosen over one locked to the tenant. */
  lemma SharedChosenOverLocked() returns (s: State, req: Request)
    ensures Inv(s) && LockedEligible(s, req, "a") && IsBest(s, req, "b") && s.gpus["b"].tenant == ""
  {
    var locked, shared := GPU("a", "L4", 48, 4, 0, "", "t"), GPU("b", "L4", 24, 4, 0, "", "");
    s := State(map["a" := locked, "b" := shared], map[], map["a" := map[], "b" := map[]]);
    req := Request("m", "1", "t", "p", Profile("1g", 10, 1), "", "", 0);
  }
}
