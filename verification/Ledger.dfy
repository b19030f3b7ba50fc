/** The ledger object: its maps and the operations that update them. Each method is one section under
    the ledger's mutex, proved against the effect stated in LedgerState. */
module Ledger {
  import opened LedgerState

  datatype PlaceResult = Reserved(r: Reservation) | NoCapacity | InvalidRequest

  datatype FreeResult = Free(vram: int) | UnknownGPU

  // ---------- the sort of the candidates ----------

  /** The stable sort by `Before`, as insertion. */
  function InsertCand(req: Request, c: Cand, cands: seq<Cand>): seq<Cand> {
    if cands == [] || !Before(req, cands[0], c) then [c] + cands
    else [cands[0]] + InsertCand(req, c, cands[1..])
  }

  function SortCands(req: Request, cands: seq<Cand>): seq<Cand> {
    if cands == [] then [] else InsertCand(req, cands[0], SortCands(req, cands[1..]))
  }

  /** The head of a sorted list comes before everything else in it. */
  predicate HeadIsLeast(req: Request, cands: seq<Cand>) {
    cands != [] && forall c :: c in cands ==> c == cands[0] || Before(req, cands[0], c)
  }

  /** No GPU is a candidate twice. */
  predicate OnePerGPU(cands: seq<Cand>) {
    forall i, j :: 0 <= i < j < |cands| ==> cands[i].gpu.id != cands[j].gpu.id
  }

  lemma {:induction false} InsertCandMembers(req: Request, c: Cand, cands: seq<Cand>)
    ensures forall x :: x in InsertCand(req, c, cands) <==> x == c || x in cands
  {
    if cands != [] && Before(req, cands[0], c) {
      InsertCandMembers(req, c, cands[1..]);
      assert cands == [cands[0]] + cands[1..];
    }
  }

  lemma {:induction false} SortCandsMembers(req: Request, cands: seq<Cand>)
    ensures forall x :: x in SortCands(req, cands) <==> x in cands
  {
    if cands != [] {
      SortCandsMembers(req, cands[1..]);
      InsertCandMembers(req, cands[0], SortCands(req, cands[1..]));
      assert cands == [cands[0]] + cands[1..];
    }
  }

  lemma InsertHead(req: Request, c: Cand, cands: seq<Cand>)
    requires cands == [] || HeadIsLeast(req, cands)
    requires forall x :: x in cands ==> x.gpu.id != c.gpu.id
    ensures HeadIsLeast(req, InsertCand(req, c, cands))
  {
    InsertCandMembers(req, c, cands);
    if cands != [] && !Before(req, cands[0], c) {
      forall x | x in cands
        ensures Before(req, c, x)
      {
        BeforeTotal(req, c, cands[0]);
        if x != cands[0] {
          BeforeTransitive(req, c, cands[0], x);
        }
      }
    }
  }

  /** The first candidate after sorting is the least one, whatever the order they were listed in. */
  lemma {:induction false} SortedHead(req: Request, cands: seq<Cand>)
    requires cands != [] && OnePerGPU(cands)
    ensures HeadIsLeast(req, SortCands(req, cands))
  {
    var rest := cands[1..];
    SortCandsMembers(req, rest);
    if rest != [] {
      SortedHead(req, rest);
    }
    InsertHead(req, cands[0], SortCands(req, rest));
  }

  // ---------- the ledger object ----------

  class Ledger {
    var gpus: map<string, GPU>
    var resv: Reservations
    var byGPU: map<string, Reservations>

    function View(): State
      reads this
    {
      State(gpus, resv, byGPU)
    }

    ghost predicate Valid()
      reads this
    {
      Inv(View())
    }

    constructor ()
      ensures View() == Empty() && Valid()
    {
      gpus, resv, byGPU := map[], map[], map[];
    }

    method RegisterGPU(g: GPU) returns (ok: bool)
      modifies this
      ensures ok <==> g.id != "" && g.totalVRAM > 0
      ensures View() == if ok then Registered(old(View()), g) else old(View())
      ensures ok ==>
                && g.id in gpus && gpus == old(gpus)[g.id := gpus[g.id]] && resv == old(resv)
                && gpus[g.id] == g.(totalSlices := if g.totalSlices <= 0 then 1 else g.totalSlices)
                && byGPU == if g.id in old(byGPU) then old(byGPU) else old(byGPU)[g.id := map[]]
    {
      if g.id == "" || g.totalVRAM <= 0 {
        return false;
      }
      var h := g;
      if h.totalSlices <= 0 {
        h := h.(totalSlices := 1);
      }
      gpus := gpus[h.id := h];
      if h.id !in byGPU {
        byGPU := byGPU[h.id := map[]];
      }
      ok := true;
    }

    /** What the reservations of one GPU add up to, in whatever order the map yields them. */
    method Used(gpu: string) returns (vram: int, slices: int)
      ensures Usage(vram, slices) == Total(Resident(View(), gpu))
    {
      vram, slices := 0, 0;
      var todo := Resident(View(), gpu);
      while todo != map[]
        invariant vram + Total(todo).vram == Total(Resident(View(), gpu)).vram
        invariant slices + Total(todo).slices == Total(Resident(View(), gpu)).slices
        decreases |todo|
      {
        var id :| id in todo;
        TotalRemove(todo, id);
        vram, slices := vram + todo[id].profile.vramBytes, slices + todo[id].profile.slicesUsed;
        todo := todo - {id};
      }
    }

    /** The GPUs that can take the request, each with its free memory. */
    method Candidates(req: Request) returns (cands: seq<Cand>)
      requires Valid()
      ensures OnePerGPU(cands)
      ensures forall c :: c in cands ==> c.gpu.id in gpus && c == CandOf(View(), gpus[c.gpu.id])
      ensures forall id :: id in gpus ==>
                (Eligible(View(), req, gpus[id]) <==> exists c :: c in cands && c.gpu.id == id)
    {
      cands := [];
      var todo := gpus.Keys;
      while todo != {}
        invariant todo <= gpus.Keys && OnePerGPU(cands)
        invariant forall c :: c in cands ==>
          c.gpu.id in gpus && c.gpu.id !in todo && c == CandOf(View(), gpus[c.gpu.id])
        invariant forall id :: id in gpus && id !in todo ==>
          (Eligible(View(), req, gpus[id]) <==> exists c :: c in cands && c.gpu.id == id)
        decreases todo
      {
        var id :| id in todo;
        todo := todo - {id};
        var g := gpus[id];
        assert GpuOk(View(), id);
        if g.tenant != "" && g.tenant != req.tenantId {
          continue;
        }
        if req.preferSKU != "" && g.sku != req.preferSKU {
          continue;
        }
        var usedVRAM, usedSlots := Used(g.id);
        var freeVRAM := g.totalVRAM - usedVRAM;
        var freeSlots := g.totalSlices - usedSlots;
        if freeVRAM < req.profile.vramBytes {
          continue;
        }
        if freeSlots < req.profile.slicesUsed {
          continue;
        }
        cands := cands + [Cand(g, freeVRAM)];
      }
    }

    /** Reserves on the best eligible GPU. `newId` is the id a reservation on a GPU would get. */
    method Place(req: Request, newId: string -> string, now: int) returns (r: PlaceResult)
      requires Valid()
      modifies this
      ensures Valid() <==>
                (r.Reserved? ==> IdFits(old(View()), r.r))
      ensures r == InvalidRequest <==> !ValidRequest(req)
      ensures r == NoCapacity <==> ValidRequest(req) && !SomeEligible(old(View()), req)
      ensures r.Reserved? ==>
                && IsBest(old(View()), req, r.r.gpu)
                && Candidate(old(View()), req, r.r.gpu) && PrefersGroup(old(View()), req, r.r.gpu)
                && FitsTightest(old(View()), req, r.r.gpu)
                && r.r == Reservation(id := newId(r.r.gpu), gpu := r.r.gpu, model := req.model,
                                      modelVer := req.modelVersion, profile := req.profile, holdFor := req.holdFor,
                                      startedAt := now, tenantId := req.tenantId, pipelineId := req.pipelineId)
                && gpus == old(gpus) && resv == old(resv)[r.r.id := r.r]
      ensures View() == if r.Reserved? then Placed(old(View()), r.r) else old(View())
    {
      if !ValidRequest(req) {
        return InvalidRequest;
      }
      var cands := Candidates(req);
      if |cands| == 0 {
        return NoCapacity;
      }
      BestOfSorted(View(), req, cands);
      BestIff(View(), req, SortCands(req, cands)[0].gpu.id);
      var g := SortCands(req, cands)[0].gpu;
      var res := NewReservation(req, g.id, newId(g.id), now);
      PlaceKeepsInvIff(View(), req, g.id, res.id, now);
      resv := resv[res.id := res];
      byGPU := byGPU[g.id := byGPU[g.id][res.id := res]];
      r := Reserved(res);
    }

    /** Releasing an unknown reservation does nothing. */
    method Release(id: string)
      requires Valid()
      modifies this
      ensures View() == Released(old(View()), id)
      ensures Valid() <==> ReleaseFits(old(View()), id)
      ensures id in old(resv) && old(resv)[id].profile.slicesUsed >= 0 ==> Valid()
    {
      hide Inv, ReleaseFits;
      ReleaseKeepsInvIff(View(), id);
      if id !in resv {
        return;
      }
      var gpu := resv[id].gpu;
      resv := resv - {id};
      if gpu in byGPU {
        byGPU := byGPU[gpu := byGPU[gpu] - {id}];
      }
    }

    /** The free memory is the total minus the sum of what the reservation table puts on the GPU. */
    method FreeVRAM(gpu: string) returns (r: FreeResult)
      requires Valid()
      ensures r == if gpu in gpus then Free(gpus[gpu].totalVRAM - Total(OnGPU(resv, gpu)).vram) else UnknownGPU
    {
      if gpu !in gpus {
        return UnknownGPU;
      }
      assert GpuOk(View(), gpu);
      var used, _ := Used(gpu);
      r := Free(gpus[gpu].totalVRAM - used);
    }
  }

  lemma BestOfSorted(s: State, req: Request, cands: seq<Cand>)
    requires Inv(s) && cands != [] && OnePerGPU(cands)
    requires forall c :: c in cands ==> c.gpu.id in s.gpus && c == CandOf(s, s.gpus[c.gpu.id])
    requires forall id :: id in s.gpus ==> (Eligible(s, req, s.gpus[id]) <==> exists c :: c in cands && c.gpu.id == id)
    ensures SortCands(req, cands) != [] && IsBest(s, req, SortCands(req, cands)[0].gpu.id)
    ensures SomeEligible(s, req)
  {
    SortedHead(req, cands);
    SortCandsMembers(req, cands);
    var head := SortCands(req, cands)[0];
    hide Eligible, CandOf, Before, Inv;
    assert head in cands;
    forall other | other in s.gpus && other != head.gpu.id && Eligible(s, req, s.gpus[other])
      ensures Before(req, CandOf(s, s.gpus[head.gpu.id]), CandOf(s, s.gpus[other]))
    {
      var c :| c in cands && c.gpu.id == other;
      assert c in SortCands(req, cands);
    }
  }
}
