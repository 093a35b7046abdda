/** Notification preferences: which channels a notification resolves to, and which it reaches. */
module Preferences {
  import opened Options

  type Channel = string
  type NotificationType = string

  const IN_APP: Channel := "in_app"
  const EMAIL: Channel := "email"
  const TELEGRAM: Channel := "telegram"

  /** One entry of `notification_type_settings`; both keys may be missing. */
  datatype Setting = Setting(enabled: Option<bool>, channels: Option<seq<Channel>>)

  datatype Prefs = Prefs(
    silenced: bool,
    immediate: bool,     // digest_frequency is IMMEDIATE
    enabled: seq<Channel>,
    settings: map<NotificationType, Setting>
  )

  // ---- Resolution ----

  predicate IsChannelEnabled(p: Prefs, channel: Channel) {
    !p.silenced && channel in p.enabled
  }

  predicate IsTypeEnabled(p: Prefs, t: NotificationType) {
    !p.silenced && (t in p.settings && p.settings[t].enabled.Some? ==> p.settings[t].enabled.value)
  }

  /** The per-type list, empty when there is none. */
  function OverrideOf(p: Prefs, t: NotificationType): seq<Channel> {
    if t in p.settings && p.settings[t].channels.Some? then p.settings[t].channels.value else []
  }

  function ChannelsFor(p: Prefs, t: NotificationType): seq<Channel> {
    if !IsTypeEnabled(p, t) then []
    else if OverrideOf(p, t) != [] then OverrideOf(p, t)
    else p.enabled
  }

  /** Types are on unless switched off, and nothing gets past the master switch; a list of their own goes first. */
  lemma ResolvesTo(p: Prefs, t: NotificationType)
    ensures var off := p.silenced || (t in p.settings && p.settings[t].enabled == Some(false));
            var owns := t in p.settings && p.settings[t].channels.Some? && p.settings[t].channels.value != [];
            && (off ==> ChannelsFor(p, t) == [])
            && (!off && owns ==> ChannelsFor(p, t) == p.settings[t].channels.value)
            && (!off && !owns ==> ChannelsFor(p, t) == p.enabled)
  {}

  // ---- disable_channel ----

  function Without(channels: seq<Channel>, channel: Channel): (r: seq<Channel>)
    ensures forall c :: c in r <==> c in channels && c != channel
    ensures channel !in channels ==> r == channels
  {
    if channels == [] then []
    else
      var n := |channels| - 1;
      assert channels == channels[..n] + [channels[n]];
      Without(channels[..n], channel) + if channels[n] == channel then [] else [channels[n]]
  }

  lemma WithoutOneMore(channels: seq<Channel>, c: Channel, channel: Channel)
    ensures Without(channels + [c], channel) == Without(channels, channel) + if c == channel then [] else [c]
  {
    assert (channels + [c])[..|channels|] == channels;
  }

  /** What is left keeps its order, and how often it occurs. */
  lemma {:induction false} WithoutKeepsOrder(before: seq<Channel>, after: seq<Channel>, channel: Channel)
    ensures Without(before + after, channel) == Without(before, channel) + Without(after, channel)
  {
    if after == [] {
      assert before + after == before;
    } else {
      var first, c := after[..|after| - 1], after[|after| - 1];
      assert after == first + [c] && before + after == (before + first) + [c];
      WithoutKeepsOrder(before, first, channel);
      WithoutOneMore(before + first, c, channel);
      WithoutOneMore(first, c, channel);
    }
  }

  function SettingWithout(s: Setting, channel: Channel): Setting {
    if s.channels.Some? then s.(channels := Some(Without(s.channels.value, channel))) else s
  }

  function Disabled(p: Prefs, channel: Channel): Prefs {
    p.(enabled := Without(p.enabled, channel),
       settings := map t | t in p.settings :: SettingWithout(p.settings[t], channel))
  }

  predicate SettingMentions(s: Setting, channel: Channel) {
    s.channels.Some? && channel in s.channels.value
  }

  predicate Mentions(p: Prefs, channel: Channel) {
    channel in p.enabled || exists t :: t in p.settings && SettingMentions(p.settings[t], channel)
  }

  class NotificationPreference {
    var silenceAllNotifications: bool
    var digestIsImmediate: bool
    var enabledChannels: seq<Channel>
    var typeSettings: map<NotificationType, Setting>

    ghost function View(): Prefs
      reads this
    {
      Prefs(silenceAllNotifications, digestIsImmediate, enabledChannels, typeSettings)
    }

    method DisableChannel(channel: Channel) returns (changed: bool)
      modifies this`enabledChannels, this`typeSettings
      ensures View() == Disabled(old(View()), channel)
      ensures changed == Mentions(old(View()), channel)
    {
      changed := false;
      if channel in enabledChannels {
        enabledChannels := Without(enabledChannels, channel);
        changed := true;
      }
      ghost var before := typeSettings;
      var todo := typeSettings.Keys;
      while todo != {}
        invariant todo <= before.Keys == typeSettings.Keys
        invariant enabledChannels == Without(old(enabledChannels), channel)
        invariant forall t :: t in before ==>
                    typeSettings[t] == if t in todo then before[t] else SettingWithout(before[t], channel)
        invariant changed == (channel in old(enabledChannels) ||
                              exists t :: t in before && t !in todo && SettingMentions(before[t], channel))
        decreases |todo|
      {
        var t :| t in todo;
        var setting := typeSettings[t];
        if setting.channels.Some? && setting.channels.value != [] && channel in setting.channels.value {
          typeSettings := typeSettings[t := setting.(channels := Some(Without(setting.channels.value, channel)))];
          changed := true;
        }
        todo := todo - {t};
      }
    }
  }

  /** Once disabled, no type resolves to the channel, and disabling it again finds nothing to do. */
  lemma DisabledChannelIsGone(p: Prefs, channel: Channel, t: NotificationType)
    ensures channel !in ChannelsFor(Disabled(p, channel), t)
    ensures !Mentions(Disabled(p, channel), channel)
    ensures !Mentions(p, channel) <==> Disabled(p, channel) == p
  {}

  /** The lists lose the channel and nothing else; switches, digests and the types' own flags stay. */
  lemma DisablingEditsOnlyLists(p: Prefs, channel: Channel, t: NotificationType)
    ensures var q := Disabled(p, channel);
            && q.silenced == p.silenced && q.immediate == p.immediate
            && (forall c :: c in q.enabled <==> c in p.enabled && c != channel)
            && (t in q.settings <==> t in p.settings)
            && (t in p.settings ==>
                  && q.settings[t].enabled == p.settings[t].enabled
                  && (q.settings[t].channels == None <==> p.settings[t].channels == None))
            && (t in p.settings && p.settings[t].channels.Some? ==>
                  forall c :: c in q.settings[t].channels.value <==> c in p.settings[t].channels.value && c != channel)
  {}

  /** The type's own list held nothing but the channel. */
  predicate OverrideEmptied(p: Prefs, t: NotificationType, channel: Channel) {
    OverrideOf(p, t) != [] && forall c :: c in OverrideOf(p, t) ==> c == channel
  }

  /** Each type keeps its channels minus the one; a list emptied by that falls back to the global one. */
  lemma WhatDisablingLeaves(p: Prefs, channel: Channel, t: NotificationType)
    ensures ChannelsFor(Disabled(p, channel), t) ==
            if IsTypeEnabled(p, t) && OverrideEmptied(p, t, channel) then Without(p.enabled, channel)
            else Without(ChannelsFor(p, t), channel)
  {
    var own := OverrideOf(p, t);
    assert OverrideOf(Disabled(p, channel), t) == Without(own, channel);
    if own != [] {
      assert own[0] in own;
      assert Without(own, channel) == [] <==> OverrideEmptied(p, t, channel) by {
        if Without(own, channel) != [] {
          assert Without(own, channel)[0] in own;
        }
      }
    }
  }

  ghost predicate NothingGained(p: Prefs, channel: Channel, t: NotificationType) {
    forall c :: c in ChannelsFor(Disabled(p, channel), t) ==> c in ChannelsFor(p, t)
  }

  /** Disabling a channel only takes away, except from a type that used it alone while others are enabled globally. */
  lemma DisablingOnlyTakesAwayExactlyWhen(p: Prefs, channel: Channel, t: NotificationType)
    ensures NothingGained(p, channel, t) <==>
            !(IsTypeEnabled(p, t) && OverrideEmptied(p, t, channel) && exists c :: c in p.enabled && c != channel)
  {
    WhatDisablingLeaves(p, channel, t);
    if IsTypeEnabled(p, t) && OverrideEmptied(p, t, channel) {
      if c :| c in p.enabled && c != channel {
        assert c in ChannelsFor(Disabled(p, channel), t);
      }
    }
  }

  // ---- From resolution to delivery ----

  /** `determine_delivery_channels` */
  function Determined(p: Prefs, t: NotificationType, transactional: bool, telegramOn: bool): seq<Channel> {
    if !transactional && !p.immediate then [IN_APP]
    else if telegramOn then ChannelsFor(p, t)
    else Without(ChannelsFor(p, t), TELEGRAM)
  }

  /** What the preferences say in each channel's `can_deliver`. */
  predicate PreferencesAllow(p: Prefs, t: NotificationType, channel: Channel) {
    channel == IN_APP || (IsChannelEnabled(p, channel) && IsTypeEnabled(p, t))
  }

  /** A delivery is created for the channel and not skipped because of the preferences. */
  predicate Reaches(p: Prefs, t: NotificationType, transactional: bool, telegramOn: bool, channel: Channel) {
    channel in Determined(p, t, transactional, telegramOn) && PreferencesAllow(p, t, channel)
  }

  /**
   * A digest user is reached in the app only. Everyone else is reached by what the type resolves to, as far as
   * it is enabled globally or in-app, and without Telegram where that is off.
   */
  lemma ReachesExactlyWhen(p: Prefs, t: NotificationType, transactional: bool, telegramOn: bool, channel: Channel)
    ensures Reaches(p, t, transactional, telegramOn, channel) <==>
            if !transactional && !p.immediate then channel == IN_APP
            else
              && channel in ChannelsFor(p, t) && (channel == IN_APP || channel in p.enabled)
              && (channel == TELEGRAM ==> telegramOn)
    ensures channel in Determined(p, t, transactional, telegramOn) <==>
            if !transactional && !p.immediate then channel == IN_APP
            else channel in ChannelsFor(p, t) && (channel == TELEGRAM ==> telegramOn)
  {}

  /** A silenced user is reached by nothing exactly when digests do not apply; otherwise in-app delivery goes on. */
  lemma SilenceHoldsExactlyWhen(p: Prefs, t: NotificationType, transactional: bool, telegramOn: bool)
    requires p.silenced
    ensures (forall c :: !Reaches(p, t, transactional, telegramOn, c)) <==> transactional || p.immediate
  {
    if !transactional && !p.immediate {
      assert Reaches(p, t, transactional, telegramOn, IN_APP);
    }
  }

  /** A per-type list cannot add a channel: each but in-app must be enabled globally as well. */
  lemma OverrideDeliversExactlyWhen(
      p: Prefs, t: NotificationType, transactional: bool, telegramOn: bool, channel: Channel)
    requires channel in ChannelsFor(p, t) && (transactional || p.immediate)
    ensures Reaches(p, t, transactional, telegramOn, channel) <==>
            (channel == IN_APP || channel in p.enabled) && (channel == TELEGRAM ==> telegramOn)
  {}

  /** The seeded override to in-app and Telegram never reaches a user without Telegram in the global list. */
  lemma SeededTelegramOverrideIsSkipped()
    ensures var t := "org_contact_message_received";
            var p := Prefs(false, true, [EMAIL, IN_APP], map[t := Setting(Some(true), Some([IN_APP, TELEGRAM]))]);
            TELEGRAM in Determined(p, t, false, true) && !Reaches(p, t, false, true, TELEGRAM)
  {
    assert EMAIL != TELEGRAM && IN_APP != TELEGRAM by {
      assert |IN_APP| == 6 && |EMAIL| == 5 && |TELEGRAM| == 8;
    }
  }

  /** After disabling a channel no notification reaches the user through it, digests' in-app entry apart. */
  lemma DisabledChannelReachesNobody(
      p: Prefs, channel: Channel, t: NotificationType, transactional: bool, telegramOn: bool)
    ensures Reaches(Disabled(p, channel), t, transactional, telegramOn, channel) <==>
            channel == IN_APP && !transactional && !p.immediate
  {
    DisabledChannelIsGone(p, channel, t);
  }
}
