/** `const.h`: protocol constants, queue limits, input limits and message ids, shared by server and client. */
module Constants {
  const MAX_LENGTH := 2048
  const HEAD_TOTAL_LEN := 4
  const HEAD_ID_LEN := 2
  const HEAD_DATA_LEN := 2

  const MAX_RECVQUE := 10000
  const MAX_SENDQUE := 1000

  const MIN_USERNAME_LEN := 2
  const MAX_USERNAME_LEN := 32
  const MIN_PASSWORD_LEN := 3
  const MAX_PASSWORD_LEN := 64
  const MAX_MESSAGE_LEN := 2048

  const MSG_HELLO_WORLD := 1001
  const MSG_REGISTER_REQ := 2001
  const MSG_REGISTER_RSP := 2002
  const MSG_LOGIN_REQ := 2003
  const MSG_LOGIN_RSP := 2004
  const MSG_GET_FRIEND_LIST_REQ := 2005
  const MSG_GET_FRIEND_LIST_RSP := 2006
  const MSG_ADD_FRIEND_REQ := 2007
  const MSG_ADD_FRIEND_RSP := 2008
  const MSG_FRIEND_REQUEST_PUSH := 2009
  const MSG_SEND_CHAT_REQ := 2010
  const MSG_SEND_CHAT_RSP := 2011
  const MSG_CHAT_MSG_PUSH := 2012
  const MSG_OFFLINE_MSG_REQ := 2013
  const MSG_OFFLINE_MSG_RSP := 2014

  /** The largest message id the server reads; a literal in the read loop. */
  const MSG_ID_LIMIT := 9999
}
