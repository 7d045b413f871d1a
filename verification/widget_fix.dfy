/**
 The pure part of `fix_widget_metadata`: given a notebook's metadata dict,
 decide whether the widget-state entry under `widgets` needs wrapping and,
 if so, produce the rewritten metadata in which that entry becomes
 `{"state": <old entry>}`.
 */
module WidgetFix {
  import opened PyJson

  const WidgetsKey: string := "widgets"
  const WidgetStateKey: string := "application/vnd.jupyter.widget-state+json"
  const StateKey: string := "state"

  /** The four ways the metadata step can end. */
  datatype Decision =
    | NoWidgetState                                          // early return, no change
    | AlreadyHasState                                        // early return, no change
    | Rewrapped(metadata: map<string, Json>, widgetCount: nat) // rewritten metadata and the reported count
    | Raised(error: PyError)                                 // a Python exception escaped

  /** `metadata["widgets"]` is a dict holding a widget-state entry. */
  ghost predicate HasWidgetStateEntry(metadata: map<string, Json>) {
    && WidgetsKey in metadata
    && metadata[WidgetsKey].JObject?
    && WidgetStateKey in metadata[WidgetsKey].fields
  }

  ghost function WidgetStateEntry(metadata: map<string, Json>): Json
    requires HasWidgetStateEntry(metadata)
  {
    metadata[WidgetsKey].fields[WidgetStateKey]
  }

  /** `after` is `before` with exactly one change: the widget-state entry of
      the `widgets` dict is replaced by the one-key dict `{"state": old entry}`.
      Every other metadata key and every other `widgets` key keeps its value. */
  ghost predicate WrapsWidgetState(before: map<string, Json>, after: map<string, Json>) {
    && HasWidgetStateEntry(before)
    && after.Keys == before.Keys
    && (forall k :: k in before && k != WidgetsKey ==> after[k] == before[k])
    && after[WidgetsKey].JObject?
    && var oldWidgets := before[WidgetsKey].fields;
       var newWidgets := after[WidgetsKey].fields;
       && newWidgets.Keys == oldWidgets.Keys
       && (forall k :: k in oldWidgets && k != WidgetStateKey ==> newWidgets[k] == oldWidgets[k])
       && newWidgets[WidgetStateKey] == JObject(map[StateKey := oldWidgets[WidgetStateKey]])
  }

  /** Lines 24-61 of the script, minus the printing. Each Python operation
      that can raise is applied in the script's order. */
  function FixMetadata(metadata: map<string, Json>): (d: Decision)
    ensures d.Rewrapped? ==> WrapsWidgetState(metadata, d.metadata)
    ensures d.Rewrapped? ==> Len(WidgetStateEntry(metadata)) == Ok(d.widgetCount)
    ensures d.Rewrapped? && WidgetStateEntry(metadata).JObject? ==>
              d.widgetCount == |WidgetStateEntry(metadata).fields|
    ensures d.Raised? ==> d.error == TypeError
  {
    var widgets := Get(metadata, WidgetsKey, JObject(map[]));
    match In(WidgetStateKey, widgets)
    case Err(e) => Raised(e)
    case Ok(false) => NoWidgetState
    case Ok(true) =>
      match GetItem(widgets, WidgetStateKey)
      case Err(e) => Raised(e)
      case Ok(widgetState) =>
        match In(StateKey, widgetState)
        case Err(e) => Raised(e)
        case Ok(true) => AlreadyHasState
        case Ok(false) =>
          match Len(widgetState)
          case Err(e) => Raised(e)
          case Ok(count) =>
            var newWidgetState := JObject(map[StateKey := widgetState]);
            match GetItem(JObject(metadata), WidgetsKey)
            case Err(e) => Raised(e)
            case Ok(target) =>
              match SetItem(target, WidgetStateKey, newWidgetState)
              case Err(e) => Raised(e)
              case Ok(updated) => Rewrapped(metadata[WidgetsKey := updated], count)
  }

  /** No change exactly when `widgets` is absent (the empty default) or is a
      dict, list or str that does not hold the widget-state key. */
  lemma NoWidgetStateIff(metadata: map<string, Json>)
    ensures FixMetadata(metadata) == NoWidgetState <==>
              || WidgetsKey !in metadata
              || (!metadata[WidgetsKey].IsScalar() && !Holds(metadata[WidgetsKey], WidgetStateKey))
  {
  }

  /** The "already fixed" early return fires exactly when the widget-state
      entry is a dict, list or str that holds "state" — so a dict whose
      widget ids include "state" counts as wrapped. */
  lemma AlreadyHasStateIff(metadata: map<string, Json>)
    ensures FixMetadata(metadata) == AlreadyHasState <==>
              && HasWidgetStateEntry(metadata)
              && !WidgetStateEntry(metadata).IsScalar()
              && Holds(WidgetStateEntry(metadata), StateKey)
  {
  }

  /** The metadata is rewritten exactly when the widget-state entry exists and
      is a dict, list or str that does not hold "state". */
  lemma RewrappedIff(metadata: map<string, Json>)
    ensures FixMetadata(metadata).Rewrapped? <==>
              && HasWidgetStateEntry(metadata)
              && !WidgetStateEntry(metadata).IsScalar()
              && !Holds(WidgetStateEntry(metadata), StateKey)
  {
  }

  /** A TypeError escapes exactly when `widgets` is a scalar, when it is a
      list or str holding the key (subscription at line 31), or when the
      widget-state entry is a scalar (`in` at line 34). A missing `widgets`
      never raises. */
  lemma RaisedIff(metadata: map<string, Json>)
    ensures FixMetadata(metadata).Raised? <==>
              && WidgetsKey in metadata
              && var widgets := metadata[WidgetsKey];
                 || widgets.IsScalar()
                 || (!widgets.JObject? && Holds(widgets, WidgetStateKey))
                 || (HasWidgetStateEntry(metadata) && WidgetStateEntry(metadata).IsScalar())
  {
  }

  /** A widget-state dict that has a widget whose id is "state" is taken as
      already wrapped, even when it holds other widgets beside it. */
  lemma WidgetNamedStateCountsAsWrapped(metadata: map<string, Json>)
    requires HasWidgetStateEntry(metadata)
    requires WidgetStateEntry(metadata).JObject?
    requires StateKey in WidgetStateEntry(metadata).fields
    ensures FixMetadata(metadata) == AlreadyHasState
  {
  }

  /** Applying the fix to its own output hits the "already has state" return. */
  lemma FixMetadataIdempotent(metadata: map<string, Json>)
    ensures FixMetadata(metadata).Rewrapped? ==>
              FixMetadata(FixMetadata(metadata).metadata) == AlreadyHasState
  {
    var d := FixMetadata(metadata);
    if d.Rewrapped? {
      assert HasWidgetStateEntry(d.metadata);
      assert WidgetStateEntry(d.metadata) == JObject(map[StateKey := WidgetStateEntry(metadata)]);
      WidgetNamedStateCountsAsWrapped(d.metadata);
    }
  }

  /** A rewrite always changes the metadata: the new entry holds "state",
      the old one did not. */
  lemma RewriteChangesMetadata(metadata: map<string, Json>)
    ensures FixMetadata(metadata).Rewrapped? ==> FixMetadata(metadata).metadata != metadata
  {
    var d := FixMetadata(metadata);
    if d.Rewrapped? {
      RewrappedIff(metadata);
      FixMetadataIdempotent(metadata);
      AlreadyHasStateIff(d.metadata);
    }
  }
}
