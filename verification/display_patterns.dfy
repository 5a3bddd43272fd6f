/**
 * `DisplayPattern#ensure_zones_is_array`, the `before_save` hook that turns
 * the `zones` column into an array of non-blank entries. YAML parsing is the
 * parameter `yamlLoad`.
 */
module DisplayPatterns {
  import opened Wrappers
  import opened Ruby
  import opened Lists

  /** The block of `reject(&:blank?)`: a blank entry is dropped, any other kept as it is. */
  function KeepNonBlank(v: Value): (r: Option<Value>)
    ensures r.Some? <==> !IsBlank(v)
    ensures r.Some? ==> r.value == v
  {
    if IsBlank(v) then None else Some(v)
  }

  /** `reject(&:blank?)`: no blank entry is left. */
  function RejectBlank(items: seq<Value>): (r: seq<Value>)
    ensures |r| <= |items|
    ensures forall i :: 0 <= i < |r| ==> !IsBlank(r[i])
  {
    var r := FilterMap(items, KeepNonBlank);
    assert forall i :: 0 <= i < |r| ==> !IsBlank(r[i]) by {
      forall i | 0 <= i < |r| ensures !IsBlank(r[i]) {
        assert r[i] in r;
        var j :| 0 <= j < |items| && KeepNonBlank(items[j]) == Some(r[i]);
      }
    }
    r
  }

  /** Rejection keeps exactly the non-blank entries: it distributes over concatenation. */
  lemma RejectBlankAppend(a: seq<Value>, b: seq<Value>)
    ensures RejectBlank(a + b) == RejectBlank(a) + RejectBlank(b)
  {
    FilterMapAppend(a, b, KeepNonBlank);
  }

  /** An entry survives rejection exactly when it is in the input and not blank. */
  lemma RejectBlankMembers(items: seq<Value>, v: Value)
    ensures v in RejectBlank(items) <==> v in items && !IsBlank(v)
  {
    if v in items && !IsBlank(v) {
      var i :| 0 <= i < |items| && items[i] == v;
      FilterMapKeeps(items, KeepNonBlank, i);
    }
  }

  /** `RejectBlankMembers` for every entry at once. */
  lemma RejectBlankExactly(items: seq<Value>)
    ensures forall v :: v in RejectBlank(items) <==> v in items && !IsBlank(v)
  {
    forall v ensures v in RejectBlank(items) <==> v in items && !IsBlank(v) {
      RejectBlankMembers(items, v);
    }
  }

  /** A list with no blank entry is left as it is. */
  lemma RejectBlankKeepsClean(items: seq<Value>)
    requires forall i :: 0 <= i < |items| ==> !IsBlank(items[i])
    ensures RejectBlank(items) == items
  {
    FilterMapIdentity(items, KeepNonBlank);
  }

  /**
   * `ensure_zones_is_array`: a string starting with '---' is parsed as YAML;
   * any other non-array is wrapped with `Array.wrap`; an array result then
   * loses its blank entries. A YAML document that is not a list stays as parsed.
   */
  function Normalize(zones: Value, yamlLoad: string -> Value): (r: Value)
    ensures !(zones.VStr? && StartsWith(zones.s, "---")) ==> r.VArray?
    ensures r.VArray? ==> forall i :: 0 <= i < |r.items| ==> !IsBlank(r.items[i])
    ensures zones.VArray? ==> forall v :: v in r.items <==> v in zones.items && !IsBlank(v)
  {
    RejectBlankExactly(if zones.VArray? then zones.items else []);
    var v := if zones.VStr? && StartsWith(zones.s, "---") then yamlLoad(zones.s)
             else if !zones.VArray? then VArray(ArrayWrap(zones))
             else zones;
    if v.VArray? then VArray(RejectBlank(v.items)) else v
  }

  /** Whatever is not a YAML document comes out as an array of non-blank entries. */
  lemma NormalizeGivesArray(zones: Value, yamlLoad: string -> Value)
    requires !(zones.VStr? && StartsWith(zones.s, "---"))
    ensures Normalize(zones, yamlLoad).VArray?
    ensures forall i :: 0 <= i < |Normalize(zones, yamlLoad).items| ==> !IsBlank(Normalize(zones, yamlLoad).items[i])
  {
  }

  /** A non-array that is not a YAML document is wrapped: nil gives [], a non-blank x gives [x], a blank x gives []. */
  lemma NormalizeWraps(zones: Value, yamlLoad: string -> Value)
    requires !zones.VArray? && !(zones.VStr? && StartsWith(zones.s, "---"))
    ensures Normalize(zones, yamlLoad) == VArray(if IsBlank(zones) then [] else [zones])
  {
    if !zones.VNil? {
      assert [zones][..0] == [];
    }
  }

  /** An array keeps its non-blank entries, in order, and only those. */
  lemma NormalizeFiltersArray(items: seq<Value>, yamlLoad: string -> Value, v: Value)
    ensures Normalize(VArray(items), yamlLoad) == VArray(RejectBlank(items))
    ensures v in Normalize(VArray(items), yamlLoad).items <==> v in items && !IsBlank(v)
  {
    RejectBlankMembers(items, v);
  }

  /** An array with no blank entry is left unchanged. */
  lemma NormalizeKeepsCleanArray(items: seq<Value>, yamlLoad: string -> Value)
    requires forall i :: 0 <= i < |items| ==> !IsBlank(items[i])
    ensures Normalize(VArray(items), yamlLoad) == VArray(items)
  {
    RejectBlankKeepsClean(items);
  }

  /** A YAML document goes through the parser, then the array rule. */
  lemma NormalizeParsesYaml(s: string, yamlLoad: string -> Value)
    requires StartsWith(s, "---")
    ensures yamlLoad(s).VArray? ==> Normalize(VStr(s), yamlLoad) == VArray(RejectBlank(yamlLoad(s).items))
    ensures !yamlLoad(s).VArray? ==> Normalize(VStr(s), yamlLoad) == yamlLoad(s)
  {
  }

  /** Normalising an already normalised array changes nothing. */
  lemma NormalizeIdempotent(zones: Value, yamlLoad: string -> Value)
    requires Normalize(zones, yamlLoad).VArray?
    ensures Normalize(Normalize(zones, yamlLoad), yamlLoad) == Normalize(zones, yamlLoad)
  {
    RejectBlankKeepsClean(Normalize(zones, yamlLoad).items);
  }

  /**
   * A YAML document that parses to a scalar is not turned into an array, and
   * a second pass then wraps it: the hook is not idempotent on such input.
   */
  lemma ScalarYamlNotIdempotent(yamlLoad: string -> Value)
    requires yamlLoad("--- zone") == VStr("zone")
    ensures Normalize(VStr("--- zone"), yamlLoad) == VStr("zone")
    ensures Normalize(Normalize(VStr("--- zone"), yamlLoad), yamlLoad) == VArray([VStr("zone")])
  {
    assert StartsWith("--- zone", "---");
    assert !StartsWith("zone", "---") by {
      assert "zone"[..3][0] == 'z';
    }
    assert [VStr("zone")][..0] == [];
    assert !IsBlank(VStr("zone")) by {
      assert !IsSpace("zone"[0]);
    }
  }
}
