/** The login command: validates the username, issues the user and
    server tokens, and assembles the channel list, creating a default
    channel when the user has none. The chat service's answers are
    inputs, and the calls made to it are returned as a trace. */
module Login {
  import opened Wrappers
  import opened Json
  import opened FilterMaps
  import opened Whitespace
  import opened Channels
  import opened Auth

  /** The API credentials read from the environment at start-up. */
  datatype Config = Config(streamApiKey: string, streamApiSecret: string)

  /** One member of a channel the service reports as created. */
  datatype ChannelMember = ChannelMember(userId: string)

  /** A channel as the service reports it after creating it. */
  datatype CreatedChannel = CreatedChannel(id: string, name: string, type_: string, members: seq<ChannelMember>)

  /** A request the login sends to the chat service, with its arguments
      in the order the source passes them. The default channel is created
      with `("general", user_id, user_id)` (src-tauri/src/stream.rs:145) on
      the client of src-tauri/src/auth.rs, which defines no three-argument
      `create_channel` (the four-argument one of src-tauri/src/stream_chat.rs
      belongs to a different client), so the roles of its second and third
      arguments are unknown and they are named by position. */
  datatype ApiCall =
    | GetUserChannels(userId: string)
    | CreateChannel(channelId: string, secondArg: string, thirdArg: string)

  datatype ClientConfig = ClientConfig(apiKey: string, userToken: string, channels: seq<ChannelInfo>)

  datatype LoginResponse = LoginResponse(userId: string, clientConfig: ClientConfig)

  /** Why a login fails, by the step that failed. */
  datatype LoginError =
    | EmptyUsername                   // "Username cannot be empty"
    | ClientInitFailed(e: AuthError)  // "Failed to initialize Stream client: ..."
    | UserTokenFailed(e: AuthError)   // "Failed to create token: ..."
    | ServerTokenFailed(e: AuthError) // "Failed to create server token: ..."
    | ChannelListFailed(detail: string) // "Failed to get user channels: ..."

  const DefaultChannelId: string := "general"

  /** The record for a newly created channel: its fields, and the user
      ids of its members in order. */
  function CreatedChannelInfo(channel: CreatedChannel): (info: ChannelInfo)
    ensures info.id == channel.id && info.name == channel.name && info.type_ == channel.type_
    ensures |info.members| == |channel.members|
    ensures forall i :: 0 <= i < |channel.members| ==> info.members[i] == channel.members[i].userId
  {
    ChannelInfo(channel.id, channel.name, channel.type_,
                seq(|channel.members|, i requires 0 <= i < |channel.members| => channel.members[i].userId))
  }

  /** The channel step of the login: lists the user's channels, parses
      the answer, and when the parsed list is empty asks for the default
      channel. A failed listing fails the step; a failed creation leaves
      the list empty and the step still succeeds. */
  method ListChannels(userId: string, channelsResponse: Result<Json, string>, createResponse: Result<CreatedChannel, string>)
    returns (r: Result<seq<ChannelInfo>, LoginError>, calls: seq<ApiCall>)
    ensures calls != [] && calls[0] == GetUserChannels(userId)
    ensures channelsResponse.Err? ==> r == Err(ChannelListFailed(channelsResponse.error)) && calls == [GetUserChannels(userId)]
    ensures channelsResponse.Ok? ==>
              var parsed := FilterMap(ChannelEntries(channelsResponse.value), ChannelOf);
              && r.Ok?
              && if parsed != [] then
                   calls == [GetUserChannels(userId)] && r.value == parsed
                 else
                   && calls == [GetUserChannels(userId), CreateChannel(DefaultChannelId, userId, userId)]
                   && r.value == (if createResponse.Ok? then [CreatedChannelInfo(createResponse.value)] else [])
  {
    calls := [GetUserChannels(userId)];
    if channelsResponse.Err? {
      return Err(ChannelListFailed(channelsResponse.error)), calls;
    }

    var channels := ParseChannelData(channelsResponse.value);

    if channels == [] {
      calls := calls + [CreateChannel(DefaultChannelId, userId, userId)];
      if createResponse.Ok? {
        channels := channels + [CreatedChannelInfo(createResponse.value)];
      }
    }
    r := Ok(channels);
  }

  /** The username passes the login's first two checks: it is not empty
      after trimming, and the client accepts the configured credentials. */
  predicate Admitted(config: Config, username: string)
  {
    Trim(username) != [] && Initialize(config.streamApiKey, config.streamApiSecret).Ok?
  }

  /** The user token for `userId` is issued: the id is not empty, the
      clock reads after the epoch, and signing the user claims succeeds. */
  predicate UserTokenIssued(config: Config, userId: string, userClock: Clock, prims: Primitives)
  {
    && userId != []
    && userClock.SinceEpoch?
    && Signed(prims, UserClaims(userId, userClock.secs), config.streamApiSecret).Ok?
  }

  /** `login_and_initialize`. `userIdFor` stands for the username table
      lookup; `userClock` and `serverClock` are the clock readings taken
      while issuing the two tokens; `channelsResponse` and
      `createResponse` are the service's answers to the channel listing
      and to the default-channel creation. */
  method LoginAndInitialize(
    config: Config, username: string,
    userIdFor: string -> string, userClock: Clock, serverClock: Clock, prims: Primitives,
    channelsResponse: Result<Json, string>, createResponse: Result<CreatedChannel, string>)
    returns (r: Result<LoginResponse, LoginError>, calls: seq<ApiCall>)
    // the username is trimmed, and one that is empty after trimming is refused
    ensures Trim(username) == [] ==> r == Err(EmptyUsername) && calls == []
    // the credentials are checked before anything else is done
    ensures Trim(username) != [] && Initialize(config.streamApiKey, config.streamApiSecret).Err? ==>
              r == Err(ClientInitFailed(EmptyCredentials)) && calls == []
    // an empty user id from the lookup stops the login before any request
    ensures (Trim(username) != [] && Initialize(config.streamApiKey, config.streamApiSecret).Ok?
             && userIdFor(Trim(username)) == []) ==> r == Err(UserTokenFailed(EmptyUserId)) && calls == []
    // a failed user token stops the login with that error, before any request
    ensures (Admitted(config, username) && userIdFor(Trim(username)) != [] && userClock.BeforeEpoch?) ==>
              r == Err(UserTokenFailed(ClockBeforeEpoch)) && calls == []
    ensures (Admitted(config, username) && userIdFor(Trim(username)) != [] && userClock.SinceEpoch?
             && Signed(prims, UserClaims(userIdFor(Trim(username)), userClock.secs), config.streamApiSecret).Err?) ==>
              r == Err(UserTokenFailed(SigningFailed)) && calls == []
    // a failed server token stops the login with that error, before any request
    ensures (Admitted(config, username) && UserTokenIssued(config, userIdFor(Trim(username)), userClock, prims)
             && serverClock.BeforeEpoch?) ==>
              r == Err(ServerTokenFailed(ClockBeforeEpoch)) && calls == []
    ensures (Admitted(config, username) && UserTokenIssued(config, userIdFor(Trim(username)), userClock, prims)
             && serverClock.SinceEpoch? && Signed(prims, ServerClaims(serverClock.secs), config.streamApiSecret).Err?) ==>
              r == Err(ServerTokenFailed(SigningFailed)) && calls == []
    // the user token is issued for the user id of the trimmed username
    ensures r.Ok? ==>
              && r.value.userId != []
              && r.value.userId == userIdFor(Trim(username))
              && r.value.clientConfig.apiKey == config.streamApiKey
              && userClock.SinceEpoch?
              && Signed(prims, UserClaims(r.value.userId, userClock.secs), config.streamApiSecret)
                 == Ok(r.value.clientConfig.userToken)
    // the first request is the channel listing for the user
    ensures calls != [] ==> calls[0] == GetUserChannels(userIdFor(Trim(username)))
    // once the username, the credentials and both tokens pass, the channels are always listed
    ensures (Admitted(config, username) && UserTokenIssued(config, userIdFor(Trim(username)), userClock, prims)
             && serverClock.SinceEpoch? && Signed(prims, ServerClaims(serverClock.secs), config.streamApiSecret).Ok?)
            ==> calls != []
    // the service is asked for channels only once both tokens exist
    ensures calls != [] ==> Admitted(config, username)
                            && UserTokenIssued(config, userIdFor(Trim(username)), userClock, prims)
    ensures calls != [] ==> serverClock.SinceEpoch?
                            && Signed(prims, ServerClaims(serverClock.secs), config.streamApiSecret).Ok?
    // a failed listing ends the login at once, with no further request
    ensures calls != [] && channelsResponse.Err? ==>
              r == Err(ChannelListFailed(channelsResponse.error))
              && calls == [GetUserChannels(userIdFor(Trim(username)))]
    // once the channels are listed, login succeeds whatever the default-channel creation does
    ensures calls != [] && channelsResponse.Ok? ==> r.Ok?
    ensures r.Ok? ==> calls != [] && channelsResponse.Ok?
    // a default channel is asked for exactly when the parsed list is empty;
    // on success the list is that channel alone, on failure it stays empty
    ensures r.Ok? ==>
              var parsed := FilterMap(ChannelEntries(channelsResponse.value), ChannelOf);
              var uid := r.value.userId;
              if parsed != [] then
                calls == [GetUserChannels(uid)] && r.value.clientConfig.channels == parsed
              else
                && calls == [GetUserChannels(uid), CreateChannel(DefaultChannelId, uid, uid)]
                && r.value.clientConfig.channels
                   == (if createResponse.Ok? then [CreatedChannelInfo(createResponse.value)] else [])
  {
    calls := [];
    var name := Trim(username);
    if name == [] {
      return Err(EmptyUsername), calls;
    }

    var initialized := Initialize(config.streamApiKey, config.streamApiSecret);
    if initialized.Err? {
      return Err(ClientInitFailed(initialized.error)), calls;
    }
    var client := initialized.value;

    var userId := userIdFor(name);

    var userToken := CreateUserToken(client, userId, userClock, prims);
    if userToken.Err? {
      return Err(UserTokenFailed(userToken.error)), calls;
    }

    var serverToken := CreateServerToken(client, serverClock, prims);
    if serverToken.Err? {
      return Err(ServerTokenFailed(serverToken.error)), calls;
    }

    var channels;
    channels, calls := ListChannels(userId, channelsResponse, createResponse);
    if channels.Err? {
      return Err(channels.error), calls;
    }

    var clientConfig := ClientConfig(config.streamApiKey, userToken.value, channels.value);
    r := Ok(LoginResponse(userId, clientConfig));
  }
}
