/** Reshaping the chat service's channel-list response into the records
    the front end receives (`parse_channel_data`). */
module Channels {
  import opened Wrappers
  import opened Json
  import opened FilterMaps

  /** One channel as the front end receives it. */
  datatype ChannelInfo = ChannelInfo(id: string, name: string, type_: string, members: seq<string>)

  /** The `user_id` of one entry of a `members` array, when it is a string. */
  function MemberUserId(member: Json): Option<string>
  {
    GetStr(member, "user_id")
  }

  /** The member ids of a channel: the string `user_id`s of its `members`
      array in order, or nothing when it has no `members` array. */
  function MemberIds(channel: Json): (ids: seq<string>)
    ensures GetArray(channel, "members").None? ==> ids == []
    ensures GetArray(channel, "members").Some? ==> |ids| <= |GetArray(channel, "members").value|
  {
    match GetArray(channel, "members")
    case Some(arr) => FilterMap(arr, MemberUserId)
    case None => []
  }

  /** The record for one entry of the `channels` array: present exactly
      when its `cid`, `type` and `name` are all strings. */
  function ChannelOf(channel: Json): (r: Option<ChannelInfo>)
    ensures r.Some? <==> Qualifies(channel)
    ensures r.Some? ==> Copies(channel, r.value)
  {
    match (GetStr(channel, "cid"), GetStr(channel, "type"), GetStr(channel, "name"))
    case (Some(id), Some(channelType), Some(name)) =>
      Some(ChannelInfo(id, name, channelType, MemberIds(channel)))
    case _ => None
  }

  /** An entry of the `channels` array that yields a record. */
  predicate Qualifies(channel: Json)
  {
    && Get(channel, "cid").Some? && Get(channel, "cid").value.Str?
    && Get(channel, "type").Some? && Get(channel, "type").value.Str?
    && Get(channel, "name").Some? && Get(channel, "name").value.Str?
  }

  /** `info` carries the entry's `cid` as its id, its `type` and its
      `name` unchanged, and the entry's member ids. */
  predicate Copies(channel: Json, info: ChannelInfo)
  {
    && Get(channel, "cid") == Some(Str(info.id))
    && Get(channel, "type") == Some(Str(info.type_))
    && Get(channel, "name") == Some(Str(info.name))
    && info.members == MemberIds(channel)
  }

  /** ChannelOf read field by field, as the loop of `parse_channel_data`
      tests the three fields. */
  lemma ChannelOfFields(channel: Json)
    ensures var id, channelType, name := GetStr(channel, "cid"), GetStr(channel, "type"), GetStr(channel, "name");
      ChannelOf(channel)
      == if id.Some? && channelType.Some? && name.Some?
         then Some(ChannelInfo(id.value, name.value, channelType.value, MemberIds(channel)))
         else None
  {
  }

  /** The entries of the response's `channels` array; none when the
      response has no `channels` key or it is not an array. */
  function ChannelEntries(response: Json): seq<Json>
  {
    GetArray(response, "channels").GetOr([])
  }

  /** `parse_channel_data`: walks the `channels` array and pushes a record
      for every entry that qualifies. */
  method ParseChannelData(response: Json) returns (channels: seq<ChannelInfo>)
    ensures channels == FilterMap(ChannelEntries(response), ChannelOf)
    ensures GetArray(response, "channels").None? ==> channels == []
  {
    channels := [];
    var channelsArray := GetArray(response, "channels");
    if channelsArray.Some? {
      var arr := channelsArray.value;
      for i := 0 to |arr|
        invariant channels == FilterMap(arr[..i], ChannelOf)
      {
        var channel := arr[i];
        assert arr[..i + 1] == arr[..i] + [channel];
        FilterMapSnoc(arr[..i], channel, ChannelOf);
        ChannelOfFields(channel);
        var id, channelType, name := GetStr(channel, "cid"), GetStr(channel, "type"), GetStr(channel, "name");
        if id.Some? && channelType.Some? && name.Some? {
          var members := MemberIds(channel);
          channels := channels + [ChannelInfo(id.value, name.value, channelType.value, members)];
        }
      }
      assert arr[..|arr|] == arr;
    }
  }

  /** The parsed list corresponds entry by entry to the qualifying
      entries of the `channels` array: there are no more records than
      entries, the k-th record comes from the k-th qualifying entry (so
      the input order is kept), copies its fields, and every qualifying
      entry yields a record. */
  lemma ParsedChannelsCorrespond(response: Json)
    ensures var entries, parsed, from := ChannelEntries(response),
                FilterMap(ChannelEntries(response), ChannelOf), KeptPositions(ChannelEntries(response), ChannelOf);
      && |parsed| <= |entries|
      && |parsed| == |from|
      && (forall k, l :: 0 <= k < l < |from| ==> from[k] < from[l])
      && (forall k :: 0 <= k < |parsed| ==> from[k] < |entries| && Copies(entries[from[k]], parsed[k]))
      && (forall i :: 0 <= i < |entries| && Qualifies(entries[i]) ==> i in from)
  {
    var entries := ChannelEntries(response);
    FilterMapAtPositions(entries, ChannelOf);
  }

  /** Every record of the parsed list comes from some qualifying entry,
      and every qualifying entry contributes its record. */
  lemma ParsedChannelsContain(response: Json, info: ChannelInfo)
    ensures info in FilterMap(ChannelEntries(response), ChannelOf)
        <==> exists i :: 0 <= i < |ChannelEntries(response)| && ChannelOf(ChannelEntries(response)[i]) == Some(info)
  {
    FilterMapContains(ChannelEntries(response), ChannelOf, info);
  }

  /** Exactly one record per qualifying entry: the parsed list is as long
      as the array when all entries qualify, and empty when none does. */
  lemma ParsedChannelsCount(response: Json)
    ensures var entries := ChannelEntries(response);
      && (|FilterMap(entries, ChannelOf)| == |entries| <==> forall i :: 0 <= i < |entries| ==> Qualifies(entries[i]))
      && (FilterMap(entries, ChannelOf) == [] <==> forall i :: 0 <= i < |entries| ==> !Qualifies(entries[i]))
  {
    var entries := ChannelEntries(response);
    FilterMapKeepsAll(entries, ChannelOf);
    FilterMapDropsAll(entries, ChannelOf);
  }

  /** The member ids of a channel are those of its `members` entries whose
      `user_id` is a string, in order; entries without one are dropped. */
  lemma MemberIdsCorrespond(channel: Json)
    ensures GetArray(channel, "members").None? ==> MemberIds(channel) == []
    ensures GetArray(channel, "members").Some? ==>
      var arr, ids, from := GetArray(channel, "members").value, MemberIds(channel),
                            KeptPositions(GetArray(channel, "members").value, MemberUserId);
      && |ids| <= |arr|
      && |ids| == |from|
      && (forall k, l :: 0 <= k < l < |from| ==> from[k] < from[l])
      && (forall k :: 0 <= k < |ids| ==> from[k] < |arr| && Get(arr[from[k]], "user_id") == Some(Str(ids[k])))
      && (forall i :: 0 <= i < |arr| && MemberUserId(arr[i]).Some? ==> i in from)
  {
    if GetArray(channel, "members").Some? {
      FilterMapAtPositions(GetArray(channel, "members").value, MemberUserId);
    }
  }
}
