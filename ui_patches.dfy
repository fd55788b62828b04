/// The decision logic of the two hooks the mod installs in the host: a prefix
/// on the setter of `Sync<string>.Value` and a postfix on `Text.OnAwake`.
module UIPatches {
  import opened NetStrings
  import opened Translation
  import opened Enhancer
  import opened Eligibility

  /// A value that may be absent.
  datatype Option<T> = None | Some(value: T)

  /// The hooks pass through unless the configuration exists and its
  /// `enabled` key reads true. `config` is `Config?.GetValue(enabled)`:
  /// `None` when the configuration is null.
  predicate Disabled(config: Option<bool>)
  {
    config != Some(true)
  }

  /// The prefix run before every assignment to a `Sync<string>.Value`.
  /// `isTextContentField` stands for the host reflection that decides whether
  /// the field is the `Content` of a `Text`; `value` is the value about to be
  /// assigned and `newValue` what the setter goes on to assign. The original
  /// setter always proceeds; the value changes only when the hook is enabled,
  /// the field is a text content, and the rewrite differs from it.
  method SyncStringValuePrefix(enhancer: LabelEnhancer, config: Option<bool>,
                               isTextContentField: bool, value: NullableString)
    returns (proceed: bool, newValue: NullableString)
    requires enhancer.Valid()
    modifies enhancer
    ensures enhancer.Valid()
    ensures proceed
    ensures Disabled(config) || !isTextContentField ==>
              newValue == value && enhancer.cache == old(enhancer.cache)
    ensures !Disabled(config) && isTextContentField ==>
              newValue == EnhanceText(enhancer.table, value)
    ensures !Disabled(config) && isTextContentField && !IsNullOrEmpty(value) ==>
              enhancer.cache == old(enhancer.cache)[value.s := newValue.s]
    ensures IsNullOrEmpty(value) ==> newValue == value && enhancer.cache == old(enhancer.cache)
  {
    newValue := value;
    if Disabled(config) {
      return true, newValue;
    }
    if isTextContentField {
      var enhancedValue := enhancer.GetEnhancedTextContent(value);
      if enhancedValue != value {
        newValue := enhancedValue;
      }
    }
    return true, newValue;
  }

  /// An assignment to `text.Content.Value` once the prefix is installed: the
  /// prefix runs first (the field is a text content), then the setter stores
  /// what the prefix left.
  method SetContentValue(enhancer: LabelEnhancer, config: Option<bool>, text: Text,
                         value: NullableString)
    requires enhancer.Valid()
    modifies enhancer, text
    ensures enhancer.Valid()
    ensures text.content == (if Disabled(config) then value else EnhanceText(enhancer.table, value))
    ensures Disabled(config) || IsNullOrEmpty(value) ==> enhancer.cache == old(enhancer.cache)
    ensures !Disabled(config) && !IsNullOrEmpty(value) ==>
              enhancer.cache == old(enhancer.cache)[value.s := text.content.s]
  {
    var proceed, newValue := SyncStringValuePrefix(enhancer, config, true, value);
    if proceed {
      text.content := newValue;
    }
  }

  /// The postfix run after a `Text` wakes up. When the hook is enabled and the
  /// text sits below a component selector or the node browser, its content is
  /// rewritten, and written back only if the rewrite differs. That write goes
  /// through the patched setter, so the prefix sees the rewritten label too;
  /// since a rewritten label rewrites to itself, the content ends up as the
  /// rewrite of the original and the cache also learns the rewritten label.
  /// `chain` is the walk from the text's slot to the root.
  method TextOnAwakePostfix(enhancer: LabelEnhancer, config: Option<bool>, text: Text,
                            ghost chain: seq<Slot>)
    requires enhancer.Valid() && WellFormed(enhancer.table)
    requires IsWalk(text.slot, chain)
    modifies enhancer, text
    ensures enhancer.Valid()
    ensures Disabled(config) || text.slot == null || !(SelectorOnWalk(chain) || NodeBrowserOnWalk(chain)) ==>
              text.content == old(text.content) && enhancer.cache == old(enhancer.cache)
    ensures !Disabled(config) && text.slot != null && (SelectorOnWalk(chain) || NodeBrowserOnWalk(chain)) ==>
              text.content == EnhanceText(enhancer.table, old(text.content))
    ensures !Disabled(config) && text.slot != null && (SelectorOnWalk(chain) || NodeBrowserOnWalk(chain))
            && !IsNullOrEmpty(old(text.content)) ==>
              var original := old(text.content).s;
              var enhanced := Enhance(enhancer.table, original);
              enhancer.cache == old(enhancer.cache)[original := enhanced][enhanced := enhanced]
    ensures IsNullOrEmpty(old(text.content)) ==>
              text.content == old(text.content) && enhancer.cache == old(enhancer.cache)
  {
    if Disabled(config) {
      return;
    }
    var eligible := ShouldEnhanceText(text, chain);
    if !eligible {
      return;
    }
    var originalContent := text.content;
    var enhancedContent := enhancer.GetEnhancedTextContent(originalContent);
    ghost var afterRewrite := enhancer.cache;
    if enhancedContent != originalContent {
      // Null and empty content come back unchanged, so this is a real label.
      assert !IsNullOrEmpty(originalContent);
      EnhanceTextIdempotent(enhancer.table, originalContent);
      SetContentValue(enhancer, config, text, enhancedContent);
      // The rewritten label was either unseen or already cached as itself.
      assert enhancer.cache == afterRewrite[enhancedContent.s := enhancedContent.s];
    }
  }
}
